/** The token ring of the score-keeping application: a single token (the
    server in ping pong, the dealer in a card game) passed around a fixed,
    ordered list of players, wrapping from the last player to the first.

    The ring is a value: `players` never changes and `token` is the only
    state.  `Next` and `Previous` return the ring with the token reassigned,
    which is the one write the source makes. */
module TokenRing {
  import opened Wrappers
  import ModArith

  /** A participant.  `id` is its zero-based position in the ring; the
      rotation reads nothing else. */
  datatype Player = Player(id: nat, name: string)

  /** The players in the order the token is passed, and the current holder
      (None while the token has not been assigned). */
  datatype Ring = Ring(players: seq<Player>, token: Option<Player>)

  /** Every player's id is its position in the ring. */
  predicate WellIndexed(players: seq<Player>)
  {
    forall i :: 0 <= i < |players| ==> players[i].id == i
  }

  /** At least one player, and ids that are positions. */
  predicate ValidPlayers(players: seq<Player>)
  {
    |players| > 0 && WellIndexed(players)
  }

  /** What a rotation needs: valid players and a holder (if any) whose id
      names a position. */
  predicate Valid(r: Ring)
  {
    && ValidPlayers(r.players)
    && (r.token.Some? ==> r.token.value.id < |r.players|)
  }

  /** What `Previous` needs.  It is weaker than `Valid`: a holder id equal
      to the ring's size is still defined, because that holder is not 0 and
      so counts back to the last player. */
  predicate ValidForPrevious(r: Ring)
  {
    && ValidPlayers(r.players)
    && (r.token.Some? ==> r.token.value.id <= |r.players|)
  }

  /** The index of the current holder, if the token is assigned. */
  function Holder(r: Ring): Option<nat>
  {
    match r.token
    case None => None
    case Some(p) => Some(p.id)
  }

  /** The token sits with the very player object at the holder's position,
      as after `token(players(i))` or after any rotation. */
  predicate HeldByMember(r: Ring)
    requires Valid(r)
  {
    r.token.Some? && r.token.value == r.players[r.token.value.id]
  }

  /** The position `Next` counts from: the holder's id, or the last index
      when unassigned, so that the first call lands on the first player. */
  function NextFrom(r: Ring): (i: nat)
    requires Valid(r)
    ensures i < |r.players|
  {
    if r.token.Some? then r.token.value.id else |r.players| - 1
  }

  /** The position `Previous` counts from: the holder's id, or 0 when
      unassigned, so that the first call lands on the last player. */
  function PreviousFrom(r: Ring): (i: nat)
    requires ValidForPrevious(r)
    ensures i <= |r.players|
  {
    if r.token.Some? then r.token.value.id else 0
  }

  /** Advances the token to the next player, wrapping from the last player to
      the first; an unassigned token goes to the first player. */
  function Next(r: Ring): (r': Ring)
    requires Valid(r)
    ensures Valid(r')
    ensures r'.players == r.players
    ensures r'.token == Some(r.players[(NextFrom(r) + 1) % |r.players|])
    ensures r'.token.value.id == (NextFrom(r) + 1) % |r.players|
    ensures HeldByMember(r')
    ensures r.token.None? ==> r'.token == Some(r.players[0])
  {
    var n := |r.players|;
    var holder := NextFrom(r);
    var nextHolder := if holder != n - 1 then holder + 1 else 0;
    assert nextHolder == (holder + 1) % n by {
      if holder != n - 1 {
        ModArith.ModInRange(holder + 1, n);
      } else {
        ModArith.ModUnique(holder + 1, 1, 0, n);
      }
    }
    r.(token := Some(r.players[nextHolder]))
  }

  /** Rolls the token back to the previous player, wrapping from the first
      player to the last; an unassigned token goes to the last player. */
  function Previous(r: Ring): (r': Ring)
    requires ValidForPrevious(r)
    ensures Valid(r')
    ensures r'.players == r.players
    ensures r'.token == Some(r.players[(PreviousFrom(r) - 1) % |r.players|])
    ensures r'.token.value.id == (PreviousFrom(r) - 1) % |r.players|
    ensures HeldByMember(r')
    ensures r.token.None? ==> r'.token == Some(r.players[|r.players| - 1])
    ensures r.token.Some? && r.token.value.id == |r.players| ==>
              r'.token == Some(r.players[|r.players| - 1])
  {
    var n := |r.players|;
    var holder := PreviousFrom(r);
    var nextHolder := if holder != 0 then holder - 1 else n - 1;
    assert nextHolder == (holder - 1) % n by {
      if holder != 0 {
        ModArith.ModInRange(holder - 1, n);
      } else {
        ModArith.ModUnique(holder - 1, -1, n - 1, n);
      }
    }
    r.(token := Some(r.players[nextHolder]))
  }
}
