/** Repeated rotation: what a caller sees after calling `next()` or
    `previous()` several times in a row. */
module RingIteration {
  import opened Wrappers
  import opened TokenRing
  import ModArith

  /** The ring after `k` successive calls of `Next`. */
  function NextN(r: Ring, k: nat): (r': Ring)
    requires Valid(r)
    ensures Valid(r')
    ensures r'.players == r.players
    ensures k == 0 ==> r' == r
    ensures k > 0 ==> HeldByMember(r')
    ensures k > 0 ==> r'.token.value.id == (NextFrom(r) + k) % |r.players|
    decreases k
  {
    if k == 0 then r
    else
      var s := NextN(r, k - 1);
      ModArith.ModOfSum(NextFrom(r) + k - 1, 1, |r.players|);
      Next(s)
  }

  /** The ring after `k` successive calls of `Previous`. */
  function PreviousN(r: Ring, k: nat): (r': Ring)
    requires ValidForPrevious(r)
    ensures ValidForPrevious(r')
    ensures r'.players == r.players
    ensures k == 0 ==> r' == r
    ensures k > 0 ==> Valid(r') && HeldByMember(r')
    ensures k > 0 ==> r'.token.value.id == (PreviousFrom(r) - k) % |r.players|
    decreases k
  {
    if k == 0 then r
    else
      var s := PreviousN(r, k - 1);
      ModArith.ModOfSum(PreviousFrom(r) - (k - 1), -1, |r.players|);
      Previous(s)
  }

  /** A run of remainders counted from `a % n` is the run counted from
      `a`. */
  lemma ReducedRun(a: int, n: int, w: seq<nat>)
    requires n > 0
    requires forall j :: 0 <= j < |w| ==> w[j] == (a % n + j + 1) % n
    ensures forall j :: 0 <= j < |w| ==> w[j] == (a + j + 1) % n
  {
    forall j | 0 <= j < |w|
      ensures w[j] == (a + j + 1) % n
    {
      ModArith.ModOfSum(a, j + 1, n);
    }
  }

  /** The ids of the players that receive the token, in order, over `k`
      successive calls of `Next`. */
  function Visits(r: Ring, k: nat): (v: seq<nat>)
    requires Valid(r)
    ensures |v| == k
    ensures forall j :: 0 <= j < k ==> v[j] == (NextFrom(r) + j + 1) % |r.players|
    decreases k
  {
    if k == 0 then []
    else
      var s := Next(r);
      var rest := Visits(s, k - 1);
      ReducedRun(NextFrom(r) + 1, |r.players|, rest);
      [s.token.value.id] + rest
  }

  /** From an assigned holder `i`, `k` calls of `Next` leave the token with
      player `(i + k) mod N`; this includes `k == 0`. */
  lemma NextNFromHolder(r: Ring, k: nat)
    requires Valid(r) && r.token.Some?
    ensures NextN(r, k).token.Some?
    ensures NextN(r, k).token.value.id == (r.token.value.id + k) % |r.players|
  {
    if k == 0 {
      ModArith.ModInRange(r.token.value.id, |r.players|);
    }
  }

  /** From an assigned holder `i`, `k` calls of `Previous` leave the token
      with player `(i - k) mod N`. */
  lemma PreviousNFromHolder(r: Ring, k: nat)
    requires Valid(r) && r.token.Some?
    ensures PreviousN(r, k).token.Some?
    ensures PreviousN(r, k).token.value.id == (r.token.value.id - k) % |r.players|
  {
    if k == 0 {
      ModArith.ModInRange(r.token.value.id, |r.players|);
    }
  }

  /** A holder id equal to the ring's size N is defined for `Previous` and
      counts back as if the holder were 0; from there `k` calls of `Next` do
      not undo `k` calls of `Previous`, they end at player 0. */
  lemma PreviousNFromSizeId(r: Ring, k: nat)
    requires ValidForPrevious(r) && r.token.Some?
    requires r.token.value.id == |r.players|
    requires k > 0
    ensures PreviousN(r, k).token.value.id == (0 - k) % |r.players|
    ensures Holder(NextN(PreviousN(r, k), k)) == Some(0)
    ensures Holder(NextN(PreviousN(r, k), k)) != Holder(r)
  {
    var n := |r.players|;
    ModArith.ModAddMultiple(0 - k, 1, n);
    ModArith.ModOfSum(n - k, k, n);
    ModArith.ModAddMultiple(0, 1, n);
  }

  /** From an unassigned token, the `k`-th call of `Next` gives the token to
      player `k - 1 mod N`: N calls end at the last player and the next call
      returns to the first. */
  lemma NextNFromUnassigned(r: Ring, k: nat)
    requires Valid(r) && r.token.None?
    requires k > 0
    ensures NextN(r, k).token.value.id == (k - 1) % |r.players|
    ensures k == |r.players| ==> NextN(r, k).token == Some(r.players[|r.players| - 1])
    ensures k == |r.players| + 1 ==> NextN(r, k).token == Some(r.players[0])
  {
    var n := |r.players|;
    ModArith.ModAddMultiple(k - 1, 1, n);
    if k == n {
      ModArith.ModInRange(n - 1, n);
    } else if k == n + 1 {
      ModArith.ModAddMultiple(0, 1, n);
    }
  }

  /** A full round of N calls of `Next`, or of `Previous`, returns the token
      to its holder.  The proof uses the closed forms of `NextN` and
      `PreviousN`; automatic induction on `r` is switched off because it only
      slows the solver down. */
  lemma {:induction false} FullRound(r: Ring)
    requires Valid(r) && HeldByMember(r)
    ensures NextN(r, |r.players|) == r
    ensures PreviousN(r, |r.players|) == r
  {
    var n := |r.players|;
    var i := r.token.value.id;
    ModArith.ModAddMultiple(i, 1, n);
    ModArith.ModAddMultiple(i, -1, n);
    ModArith.ModInRange(i, n);
  }

  /** With a single player holding the token the holder never changes; an
      unassigned token is still changed by the first call. */
  lemma SinglePlayerNeverChanges(r: Ring, k: nat)
    requires Valid(r)
    requires |r.players| == 1
    ensures HeldByMember(r) ==> NextN(r, k) == r
    ensures HeldByMember(r) ==> PreviousN(r, k) == r
    ensures r.token.None? ==> NextN(r, 1) != r && PreviousN(r, 1) != r
  {
    ModArith.ModUnique(NextFrom(r) + k, NextFrom(r) + k, 0, 1);
    ModArith.ModUnique(PreviousFrom(r) - k, PreviousFrom(r) - k, 0, 1);
  }

  /** `k` calls of `Previous` undo `k` calls of `Next`, and the other way
      round, from any assigned holder.  As in `FullRound`, the proof uses the
      closed forms, and automatic induction is switched off. */
  lemma {:induction false} UndoSteps(r: Ring, k: nat)
    requires Valid(r) && r.token.Some?
    ensures Holder(PreviousN(NextN(r, k), k)) == Holder(r)
    ensures Holder(NextN(PreviousN(r, k), k)) == Holder(r)
    ensures HeldByMember(r) ==> PreviousN(NextN(r, k), k) == r
    ensures HeldByMember(r) ==> NextN(PreviousN(r, k), k) == r
  {
    if k > 0 {
      var n := |r.players|;
      var i := r.token.value.id;
      ModArith.ModOfSum(i + k, -(k as int), n);
      ModArith.ModOfSum(i - k, k, n);
      ModArith.ModInRange(i, n);
    }
  }

  /** Over one round from an unassigned token every player receives the
      token exactly once, in ring order. */
  lemma VisitsInOrderFromUnassigned(r: Ring)
    requires Valid(r) && r.token.None?
    ensures forall j :: 0 <= j < |r.players| ==> Visits(r, |r.players|)[j] == j
  {
    var n := |r.players|;
    forall j | 0 <= j < n
      ensures Visits(r, n)[j] == j
    {
      ModArith.ModAddMultiple(j, 1, n);
      ModArith.ModInRange(j, n);
    }
  }

  /** From any state, every player receives the token within N calls. */
  lemma EveryPlayerWithinRound(r: Ring)
    requires Valid(r)
    ensures forall p :: 0 <= p < |r.players| ==> p in Visits(r, |r.players|)
  {
    var n := |r.players|;
    var v := Visits(r, n);
    var a := NextFrom(r) + 1;
    forall p | 0 <= p < n
      ensures p in v
    {
      // The call that lands on p is the one `(p - a) mod N` steps in.
      var j := (p - a) % n;
      ModArith.ModOfSum(p - a, a, n);
      ModArith.ModInRange(p, n);
      assert v[j] == p;
    }
  }
}
