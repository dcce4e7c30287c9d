/**
 * The game's own records as the patch sees them: characters, the two teams'
 * rosters of character nodes, the players, and the flag bytes inside a
 * character.
 *
 * Game memory is abstract. A roster is the chain of character nodes a team's
 * list holds, in `next`-link order, stopping at the null link; a node carries
 * its parent node, so following parents always ends.
 */
module GameData {
  import opened Optional
  import opened Reals

  /** A machine address (`usize`). */
  type Ptr = nat

  /** A character, known by its address. */
  datatype Char = Char(ptr: Ptr)

  /** A player slot, known by its address. */
  datatype Player = Player(ptr: Ptr)

  /**
   * A character node: the node's address, the address of the character it
   * holds (`+0x08`) and the node it hangs under (`+0x30`), if any.
   */
  datatype CharNode = CharNode(ptr: Ptr, charPtr: Ptr, parent: Option<CharNode>)

  /**
   * What the roster globals hold: each team's node chain (from
   * `CharNode::player1()` / `player2()`), each team's player record and its
   * point character.
   */
  datatype Roster = Roster(
    p1: seq<CharNode>,
    p2: seq<CharNode>,
    player1: Player,
    player2: Player,
    p1Point: Char,
    p2Point: Char)

  // ---------------------------------------------------------------------
  // Teams

  datatype Team = Player1 | Player2 | Unknown

  /** `Team::opposite`. */
  function Opposite(t: Team): Team {
    match t
    case Player1 => Player2
    case Player2 => Player1
    case Unknown => Unknown
  }

  /** `Team::player`: the team's player record, none for `Unknown`. */
  function TeamPlayer(r: Roster, t: Team): Option<Player> {
    match t
    case Player1 => Some(r.player1)
    case Player2 => Some(r.player2)
    case Unknown => None
  }

  /** The opposite team swaps the players, keeps `Unknown`, and undoes itself. */
  lemma OppositeSpec(t: Team)
    ensures Opposite(Opposite(t)) == t
    ensures Opposite(t) == t <==> t == Unknown
    ensures Opposite(t) != Unknown <==> t != Unknown
  {}

  // ---------------------------------------------------------------------
  // Searching the rosters

  /** The position of the first node holding character `ptr`, or `|chain|` when none does. */
  function IndexOfChar(chain: seq<CharNode>, ptr: Ptr): (k: nat)
    ensures k <= |chain|
    ensures forall j :: 0 <= j < k ==> chain[j].charPtr != ptr
    ensures k < |chain| ==> chain[k].charPtr == ptr
  {
    if |chain| == 0 then 0
    else if chain[0].charPtr == ptr then 0
    else 1 + IndexOfChar(chain[1..], ptr)
  }

  predicate InChain(chain: seq<CharNode>, ptr: Ptr) {
    exists j :: 0 <= j < |chain| && chain[j].charPtr == ptr
  }

  /** The search finds a node exactly when some node of the chain holds the character. */
  lemma IndexOfCharFinds(chain: seq<CharNode>, ptr: Ptr)
    ensures IndexOfChar(chain, ptr) < |chain| <==> InChain(chain, ptr)
  {}

  /** `Char::identify_team`: the first team whose chain holds the character, player 1 first. */
  function IdentifyTeam(r: Roster, c: Char): Team {
    if IndexOfChar(r.p1, c.ptr) < |r.p1| then Player1
    else if IndexOfChar(r.p2, c.ptr) < |r.p2| then Player2
    else Unknown
  }

  /** `CharNode::all_nodes`: the player 1 chain followed by the player 2 chain. */
  function AllNodes(r: Roster): seq<CharNode> {
    r.p1 + r.p2
  }

  /** `CharNode::from_char`: the first node of all nodes that holds the character. */
  function FromChar(r: Roster, c: Char): Option<CharNode> {
    var all := AllNodes(r);
    var k := IndexOfChar(all, c.ptr);
    if k < |all| then Some(all[k]) else None
  }

  /** `Char::player`: the player of the character's team. */
  function CharPlayer(r: Roster, c: Char): Option<Player> {
    TeamPlayer(r, IdentifyTeam(r, c))
  }

  /** `Char::get_opponent_point_char`: the point character of the other team. */
  function OpponentPoint(r: Roster, c: Char): Option<Char> {
    match Opposite(IdentifyTeam(r, c))
    case Player1 => Some(r.p1Point)
    case Player2 => Some(r.p2Point)
    case Unknown => None
  }

  /** `Char::if_valid`: apply `f` only to a character of a known team. */
  predicate IsValid(r: Roster, c: Char) {
    IdentifyTeam(r, c) != Unknown
  }

  /** The team is player 1 exactly when that chain holds the character, player 2 only otherwise. */
  lemma IdentifyTeamSpec(r: Roster, c: Char)
    ensures IdentifyTeam(r, c) == Player1 <==> InChain(r.p1, c.ptr)
    ensures IdentifyTeam(r, c) == Player2 <==> !InChain(r.p1, c.ptr) && InChain(r.p2, c.ptr)
    ensures IdentifyTeam(r, c) == Unknown <==> !InChain(r.p1, c.ptr) && !InChain(r.p2, c.ptr)
  {
    IndexOfCharFinds(r.p1, c.ptr);
    IndexOfCharFinds(r.p2, c.ptr);
  }

  /** A node is found exactly for characters of a known team; it holds the character and comes from that team's chain. */
  lemma FromCharMatchesTeam(r: Roster, c: Char)
    ensures FromChar(r, c).Some? <==> IdentifyTeam(r, c) != Unknown
    ensures FromChar(r, c).Some? ==> FromChar(r, c).value.charPtr == c.ptr
    ensures IdentifyTeam(r, c) == Player1 ==> FromChar(r, c).value in r.p1
    ensures IdentifyTeam(r, c) == Player2 ==> FromChar(r, c).value in r.p2
  {
    var all := AllNodes(r);
    IndexOfCharFinds(r.p1, c.ptr);
    IndexOfCharFinds(r.p2, c.ptr);
    IndexOfCharFinds(all, c.ptr);
    var k := IndexOfChar(all, c.ptr);
    if k < |all| {
      if k < |r.p1| {
        assert all[k] == r.p1[k];
      } else {
        assert all[k] == r.p2[k - |r.p1|];
      }
    }
    if InChain(r.p1, c.ptr) {
      var j := IndexOfChar(r.p1, c.ptr);
      assert all[j] == r.p1[j];
    } else if InChain(r.p2, c.ptr) {
      var j := IndexOfChar(r.p2, c.ptr);
      assert all[|r.p1| + j] == r.p2[j];
    }
  }

  /** The opponent's point character resolves exactly for characters of a known team, to the other team's point. */
  lemma OpponentPointSpec(r: Roster, c: Char)
    ensures OpponentPoint(r, c).Some? <==> IsValid(r, c)
    ensures IdentifyTeam(r, c) == Player1 ==> OpponentPoint(r, c) == Some(r.p2Point)
    ensures IdentifyTeam(r, c) == Player2 ==> OpponentPoint(r, c) == Some(r.p1Point)
  {}

  // ---------------------------------------------------------------------
  // Parents

  /** `b` is `a` or one of the nodes `a` hangs under. */
  predicate IsAncestorOrSelf(b: CharNode, a: CharNode)
    decreases a
  {
    b == a || (a.parent.Some? && IsAncestorOrSelf(b, a.parent.value))
  }

  /** `CharNode::true_ancestor`: follow parent links until a node has none. */
  function TrueAncestor(n: CharNode): (a: CharNode)
    ensures a.parent.None?
    ensures IsAncestorOrSelf(a, n)
    decreases n
  {
    match n.parent
    case None => n
    case Some(p) => TrueAncestor(p)
  }

  /** A node without a parent is its own true ancestor, and every node shares its parent's. */
  lemma {:induction false} TrueAncestorSpec(n: CharNode)
    ensures TrueAncestor(TrueAncestor(n)) == TrueAncestor(n)
    ensures n.parent.None? <==> TrueAncestor(n) == n
    ensures n.parent.Some? ==> TrueAncestor(n) == TrueAncestor(n.parent.value)
  {
    if n.parent.Some? {
      AncestorIsSmaller(TrueAncestor(n), n.parent.value);
    }
  }

  /** An ancestor of `a` is never `a`'s child: it is no larger than `a`. */
  lemma {:induction false} AncestorIsSmaller(b: CharNode, a: CharNode)
    requires IsAncestorOrSelf(b, a)
    ensures b == a || b < a
    decreases a
  {
    if b != a {
      AncestorIsSmaller(b, a.parent.value);
    }
  }

  // ---------------------------------------------------------------------
  // Flag bits inside a byte (`offset_getter_and_setter_flag`)

  /** The flag getter: every bit of `flag` is set. */
  predicate GetFlag(value: bv8, flag: bv8) {
    value & flag == flag
  }

  /** The flag setter: set the flag's bits, or clear them. */
  function SetFlag(value: bv8, flag: bv8, on: bool): bv8 {
    if on then value | flag else value & !flag
  }

  /** Setting a (nonzero) flag then reading it gives what was written; no other bit changes. */
  lemma FlagRoundTrip(value: bv8, flag: bv8, on: bool)
    requires flag != 0
    ensures GetFlag(SetFlag(value, flag, on), flag) == on
    ensures SetFlag(value, flag, on) & !flag == value & !flag
    ensures SetFlag(SetFlag(value, flag, on), flag, on) == SetFlag(value, flag, on)
  {}

  /** The flying-screen install flag, bit `0x04` of the byte at `Char+0x1509`. */
  const FLYING_SCREEN_INSTALL: bv8 := 0x04

  datatype Facing = Right | Left

  /** `Char::get_facing`, from the byte at `Char+0x14FA`: left when bit `0x20` is set. */
  function FacingOf(b: bv8): Facing {
    if b & 0x20 == 0x20 then Left else Right
  }

  datatype HitstunFlagA = HitstunAirStandCrouch | KnockdownOrNonHitstun

  /** `Char::get_hitstun_non_knockdown`, from the byte at `Char+0x06EC`. */
  function HitstunOf(b: bv8): HitstunFlagA {
    if b & 0x04 == 0x04 then KnockdownOrNonHitstun else HitstunAirStandCrouch
  }

  /** Each decoder reads a single bit: the same as the flag getter on that bit. */
  lemma DecodersReadOneBit(b: bv8)
    ensures FacingOf(b) == Left <==> GetFlag(b, 0x20)
    ensures HitstunOf(b) == KnockdownOrNonHitstun <==> GetFlag(b, 0x04)
    ensures FacingOf(b) == FacingOf(b & 0x20) && HitstunOf(b) == HitstunOf(b & 0x04)
  {}

  // ---------------------------------------------------------------------
  // Meter and health

  const METER_MAX: real := 50000.0

  /** `MIN_HEALTH`: the least health `set_health` stores. */
  const MIN_HEALTH: real := 2.0

  /**
   * At or below this the true ancestor counts as dead and health is left
   * alone: the `f32` literal `0.1`, which is exactly 13421773 / 2^27. No `f32`
   * lies strictly between it and the decimal 0.1.
   */
  const DEAD_HEALTH: real := 0.100000001490116119384765625

  /** `Player::set_meter`: the value written to the meter. */
  function SetMeter(v: FloatValue): real {
    if !v.Finite? then 0.0
    else if v.value > METER_MAX then METER_MAX
    else if v.value <= 0.0 then 0.0
    else v.value
  }

  /** The meter written is the finite value clamped to `[0, METER_MAX]`, and 0 for a non-finite value. */
  lemma SetMeterClamps(v: FloatValue)
    ensures 0.0 <= SetMeter(v) <= METER_MAX
    ensures v.Finite? ==> SetMeter(v) == Max(0.0, Min(v.value, METER_MAX))
    ensures !v.Finite? ==> SetMeter(v) == 0.0
    ensures SetMeter(Finite(SetMeter(v))) == SetMeter(v)
  {}

  /** `Char::get_health`: the raw health of the true ancestor of the character's node, `0.0` without a node. */
  function GetHealth(r: Roster, health: Ptr -> real, c: Char): real {
    match FromChar(r, c)
    case Some(n) => health(TrueAncestor(n).charPtr)
    case None => 0.0
  }

  /** A health write: which character's raw health, and the value. */
  datatype HealthWrite = HealthWrite(target: Char, value: real)

  /** The character whose health a write lands on: the true ancestor of its node, or itself. */
  function HealthOwner(r: Roster, c: Char): Char {
    match FromChar(r, c)
    case Some(n) => Char(TrueAncestor(n).charPtr)
    case None => c
  }

  /** `Char::set_health`: the raw health write it performs, if any. */
  function SetHealth(r: Roster, health: Ptr -> real, c: Char, v: FloatValue): Option<HealthWrite> {
    var owner := HealthOwner(r, c);
    if !v.Finite? then None
    else if GetHealth(r, health, owner) <= DEAD_HEALTH then None
    else if v.value < MIN_HEALTH then Some(HealthWrite(owner, MIN_HEALTH))
    else Some(HealthWrite(owner, v.value))
  }

  /**
   * Health is written only for a finite value while the owner is alive, and
   * then it is `max(value, MIN_HEALTH)` with no upper bound, written to the
   * true ancestor. A character on neither roster is never written: its own
   * health reads as `0.0`.
   */
  lemma SetHealthSpec(r: Roster, health: Ptr -> real, c: Char, v: FloatValue)
    ensures SetHealth(r, health, c, v).Some? <==>
      v.Finite? && GetHealth(r, health, HealthOwner(r, c)) > DEAD_HEALTH
    ensures SetHealth(r, health, c, v).Some? ==>
      SetHealth(r, health, c, v).value == HealthWrite(HealthOwner(r, c), Max(v.value, MIN_HEALTH))
    ensures FromChar(r, c).Some? ==> HealthOwner(r, c).ptr == TrueAncestor(FromChar(r, c).value).charPtr
    ensures !IsValid(r, c) ==> SetHealth(r, health, c, v).None?
  {
    FromCharMatchesTeam(r, c);
  }

  /** The bound is the `f32` nearest 0.1, just above the decimal value. */
  lemma DeadHealthIsF32(health: Ptr -> real, r: Roster, c: Char, v: FloatValue)
    ensures DEAD_HEALTH == 13421773.0 / 134217728.0
    ensures DEAD_HEALTH > 0.1
    ensures GetHealth(r, health, HealthOwner(r, c)) == DEAD_HEALTH ==> SetHealth(r, health, c, v).None?
  {}

  /**
   * A written health is at least `MIN_HEALTH`, so it leaves the owner alive;
   * asking for the written value again produces the same write.
   */
  lemma SetHealthStable(r: Roster, health: Ptr -> real, c: Char, v: FloatValue)
    requires SetHealth(r, health, c, v).Some?
    ensures var w := SetHealth(r, health, c, v).value;
      && w.value >= MIN_HEALTH > DEAD_HEALTH
      && (v.value >= MIN_HEALTH ==> w.value == v.value)
      && SetHealth(r, health, c, Finite(w.value)) == Some(w)
  {}
}
