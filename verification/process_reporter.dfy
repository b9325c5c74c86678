// Generations of index builds for one file. Each build gets a token: a fresh
// cancellation flag (raising it interrupts the build) and the completion that
// waiters observe. Completion and cancellation are booleans here; the task and
// its continuations are not modelled.
module Reporting {

  /** A TaskCompletionSource: completed once, never reset. */
  class CompletionSource {
    var completed: bool

    constructor ()
      ensures !completed
    {
      completed := false;
    }

    /** TrySetResult: completes the task; reports whether this call did it. */
    method TrySetResult() returns (changed: bool)
      modifies this
      ensures completed
      ensures changed <==> !old(completed)
    {
      changed := !completed;
      completed := true;
    }
  }

  /** A CancellationTokenSource: cancellation is requested once, never withdrawn. */
  class CancellationSource {
    var cancelled: bool

    constructor ()
      ensures !cancelled
    {
      cancelled := false;
    }

    method Cancel()
      modifies this
      ensures cancelled
    {
      cancelled := true;
    }
  }

  /** The process-wide counter of build numbers (a static field in the source). */
  class ProcessCounter {
    var last: int

    constructor ()
      ensures last == 1
    {
      last := 1;
    }

    /** Interlocked.Increment: the new value. */
    method Increment() returns (n: int)
      modifies this
      ensures n == last == old(last) + 1
    {
      last := last + 1;
      n := last;
    }
  }

  /** The token of one build. */
  datatype ProcessToken = ProcessToken(
    number: int,
    completion: CompletionSource,
    cancellation: CancellationSource,
    isSuccessful: bool)
  {
    /** True once a newer build has started. */
    predicate IsInterrupted(): (interrupted: bool)
      reads cancellation
      ensures interrupted <==> cancellation.cancelled
    {
      cancellation.cancelled
    }

    function MarkSuccessful(): (t: ProcessToken)
      ensures t.isSuccessful
      ensures t.number == number && t.completion == completion && t.cancellation == cancellation
    {
      this.(isSuccessful := true)
    }

    /** Finish, run when the token is disposed: a successful build completes the
        completion it shares with its waiters; an unsuccessful one leaves it as it is. */
    method Dispose()
      modifies completion
      ensures isSuccessful ==> completion.completed
      ensures !isSuccessful ==> completion.completed == old(completion.completed)
    {
      if isSuccessful {
        var _ := completion.TrySetResult();
      }
    }
  }

  /** The token constructor: takes the next process number. */
  method NewProcessToken(counter: ProcessCounter, completion: CompletionSource, cancellation: CancellationSource)
    returns (token: ProcessToken)
    modifies counter
    ensures token.number == counter.last == old(counter.last) + 1
    ensures token.completion == completion && token.cancellation == cancellation && !token.isSuccessful
  {
    var n := counter.Increment();
    token := ProcessToken(n, completion, cancellation, false);
  }

  class LexingProcessReporter {
    var completionSource: CompletionSource
    var cancellationSource: CancellationSource
    /** The cancellation sources of all earlier builds. */
    ghost var retired: set<CancellationSource>

    /** Every earlier build is interrupted; the current one is a different source. */
    ghost predicate Valid()
      reads this, retired
    {
      && cancellationSource !in retired
      && forall c :: c in retired ==> c.cancelled
    }

    /** A pending completion and a fresh, uncancelled source. */
    constructor ()
      ensures Valid() && fresh(completionSource) && fresh(cancellationSource)
      ensures !completionSource.completed && !cancellationSource.cancelled && retired == {}
    {
      completionSource := new CompletionSource();
      cancellationSource := new CancellationSource();
      retired := {};
    }

    /** Cancels the previous build and hands out the token of a new one. The
        completion is kept while pending, so earlier waiters share it with the new
        build; a completed one is replaced by a fresh, pending one. */
    method StartNew(counter: ProcessCounter) returns (token: ProcessToken)
      modifies this, cancellationSource, counter
      ensures old(Valid()) ==> Valid()
      ensures retired == old(retired) + {old(cancellationSource)}
      ensures old(cancellationSource).cancelled
      ensures fresh(cancellationSource) && !cancellationSource.cancelled
      ensures !old(completionSource.completed) ==> completionSource == old(completionSource)
      ensures old(completionSource.completed) ==> fresh(completionSource) && !completionSource.completed
      ensures token.completion == completionSource && token.cancellation == cancellationSource
      ensures !token.isSuccessful && !token.IsInterrupted()
      ensures token.number == counter.last == old(counter.last) + 1
    {
      cancellationSource.Cancel();
      retired := retired + {cancellationSource};
      cancellationSource := new CancellationSource();
      if completionSource.completed {
        completionSource := new CompletionSource();
      }
      token := NewProcessToken(counter, completionSource, cancellationSource);
    }

    /** A token of any earlier build reads as interrupted, and the current build's
        token does not share its cancellation with any of them. */
    lemma RetiredTokenInterrupted(token: ProcessToken)
      requires Valid() && token.cancellation in retired
      ensures token.IsInterrupted() && token.cancellation != cancellationSource
    {
    }

    /** Completes the current completion; harmless when it already is. */
    method SetCompleted()
      modifies completionSource
      ensures completionSource.completed
    {
      var _ := completionSource.TrySetResult();
    }
  }
}
