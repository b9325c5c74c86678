// The tri-state disposal guard shared by every disposable entity of the catalog.
// In the source it is a mutable struct holding one int that is updated by a
// compare-and-swap (TrySetDisposing) and an exchange (SetDisposed); here it is a
// value whose owners reassign the field that holds it.
module DisposeStates {

  const Alive := 0
  const Disposing := 1
  const Disposed := 2

  datatype DisposeState = DisposeState(code: int) {

    /** Disposing and Disposed both count as disposed. */
    predicate IsDisposed(): (disposed: bool)
      ensures code == Alive ==> !disposed
      ensures code == Disposing || code == Disposed ==> disposed
    {
      code >= Disposing
    }

    /** Compare-and-swap Alive -> Disposing; reports whether this call made the transition. */
    function TrySetDisposing(): (r: (bool, DisposeState))
      ensures r.0 <==> code == Alive
      ensures r.0 ==> r.1.code == Disposing && r.1.IsDisposed()
      ensures !r.0 ==> r.1 == this
    {
      if code == Alive then (true, DisposeState(Disposing)) else (false, this)
    }

    /** Unconditional exchange to Disposed. */
    function SetDisposed(): (r: DisposeState)
      ensures r.code == Disposed && r.IsDisposed()
    {
      DisposeState(Disposed)
    }

    function ToString(): (s: string)
      ensures code == Alive ==> s == "Alive"
      ensures code == Disposing ==> s == "Disposing"
      ensures code == Disposed ==> s == "Disposed"
      ensures code !in {Alive, Disposing, Disposed} ==> s == "Unknown"
    {
      if code == Alive then "Alive"
      else if code == Disposing then "Disposing"
      else if code == Disposed then "Disposed"
      else "Unknown"
    }
  }

  /** The default value of the struct: its int field is zero. */
  function Initial(): (s: DisposeState)
    ensures s.code == Alive && !s.IsDisposed()
  {
    DisposeState(0)
  }

  /** One call on the guard, as issued by any of its owners. */
  datatype Call = TrySetDisposingCall | SetDisposedCall

  /** Runs the calls in order from `s`; returns the final state and how many
      TrySetDisposing calls returned true. */
  function Run(s: DisposeState, calls: seq<Call>): (r: (DisposeState, nat))
    decreases |calls|
  {
    if calls == [] then (s, 0)
    else
      match calls[0]
      case TrySetDisposingCall =>
        var (ok, s') := s.TrySetDisposing();
        var (t, n) := Run(s', calls[1..]);
        (t, n + if ok then 1 else 0)
      case SetDisposedCall =>
        Run(s.SetDisposed(), calls[1..])
  }

  /** Once the guard has left Alive, no call brings it back and no TrySetDisposing succeeds. */
  lemma {:induction false} NeverBackToAlive(s: DisposeState, calls: seq<Call>)
    requires s.code != Alive
    ensures Run(s, calls).0.code != Alive
    ensures Run(s, calls).1 == 0
    decreases |calls|
  {
    if calls != [] {
      match calls[0]
      case TrySetDisposingCall =>
        NeverBackToAlive(s.TrySetDisposing().1, calls[1..]);
      case SetDisposedCall =>
        NeverBackToAlive(s.SetDisposed(), calls[1..]);
    }
  }

  /** In any sequence of calls at most one TrySetDisposing returns true, only when
      the guard starts Alive, and the first call wins when it is a TrySetDisposing. */
  lemma {:induction false} AtMostOneDisposer(s: DisposeState, calls: seq<Call>)
    ensures Run(s, calls).1 <= 1
    ensures Run(s, calls).1 == 1 ==> s.code == Alive
    ensures s.code == Alive && calls != [] && calls[0] == TrySetDisposingCall ==> Run(s, calls).1 == 1
    decreases |calls|
  {
    if calls != [] {
      match calls[0]
      case TrySetDisposingCall =>
        var s' := s.TrySetDisposing().1;
        if s.code == Alive {
          NeverBackToAlive(s', calls[1..]);
        } else {
          AtMostOneDisposer(s', calls[1..]);
        }
      case SetDisposedCall =>
        NeverBackToAlive(s.SetDisposed(), calls[1..]);
    }
  }
}
