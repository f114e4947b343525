/** Single-step properties of the token ring: `previous()` as the undo of
    `next()`, where that undo stops working, the dealer example of the
    class comment, and a four-player walk-through. */
module RingProperties {
  import opened Wrappers
  import opened TokenRing
  import ModArith

  /** `Previous` undoes `Next` from any assigned holder: the holder index is
      restored, and so is the whole ring when the token was a member. */
  lemma PreviousUndoesNext(r: Ring)
    requires Valid(r) && r.token.Some?
    ensures Holder(Previous(Next(r))) == Holder(r)
    ensures HeldByMember(r) ==> Previous(Next(r)) == r
  {
    var n := |r.players|;
    var i := r.token.value.id;
    ModArith.ModOfSum(i + 1, -1, n);
    ModArith.ModInRange(i, n);
  }

  /** `Next` undoes `Previous` from any assigned holder. */
  lemma NextUndoesPrevious(r: Ring)
    requires Valid(r) && r.token.Some?
    ensures Holder(Next(Previous(r))) == Holder(r)
    ensures HeldByMember(r) ==> Next(Previous(r)) == r
  {
    var n := |r.players|;
    var i := r.token.value.id;
    ModArith.ModOfSum(i as int - 1, 1, n);
    ModArith.ModInRange(i, n);
  }

  /** From the unassigned state neither order is an undo: the token ends up
      assigned, with the last player after `Next` then `Previous` and with
      the first player after `Previous` then `Next`. */
  lemma NoUndoFromUnassigned(r: Ring)
    requires Valid(r) && r.token.None?
    ensures Previous(Next(r)) != r && Next(Previous(r)) != r
    ensures Previous(Next(r)).token == Some(r.players[|r.players| - 1])
    ensures Next(Previous(r)).token == Some(r.players[0])
  {
    var n := |r.players|;
    ModArith.ModInRange(n - 1, n);
    ModArith.ModAddMultiple(0, 1, n);
  }

  /** Between rings whose token sits with a member, `Next` and `Previous`
      are exact inverses: `t` follows `s` exactly when `s` precedes `t`. */
  lemma NextPreviousInverse(s: Ring, t: Ring)
    requires Valid(s) && Valid(t) && HeldByMember(s) && HeldByMember(t)
    requires s.players == t.players
    ensures Next(s) == t <==> Previous(t) == s
  {
    if Next(s) == t {
      PreviousUndoesNext(s);
    }
    if Previous(t) == s {
      NextUndoesPrevious(t);
    }
  }

  /** Four players, ids 0 to 3, in the order they were listed. */
  function FourPlayers(): (ps: seq<Player>)
    ensures |ps| == 4 && WellIndexed(ps)
  {
    [Player(0, "Player 1"), Player(1, "Player 2"),
     Player(2, "Player 3"), Player(3, "Player 4")]
  }

  /** The class comment's card game: player two (index 1) is made the first
      dealer, `next()` advances the deal to index 2, and `previous()` undoes
      that advance. */
  lemma DealerExample()
    ensures var r0 := Ring(FourPlayers(), Some(FourPlayers()[1]));
            && Holder(Next(r0)) == Some(2)
            && Previous(Next(r0)) == r0
  {
  }

  /** Starting unassigned, three calls of `Next` hand the token to players
      0, 1 and 2 in turn, and a call of `Previous` hands it back to 1. */
  lemma FourPlayerWalkThrough()
    ensures var r0 := Ring(FourPlayers(), None);
            var r1 := Next(r0);
            var r2 := Next(r1);
            var r3 := Next(r2);
            var r4 := Previous(r3);
            && Holder(r1) == Some(0) && Holder(r2) == Some(1)
            && Holder(r3) == Some(2) && Holder(r4) == Some(1)
  {
  }
}
