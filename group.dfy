/**
 * A HEOS group: a name, a group id, and optionally a leader and member players.
 * Its identity is the group id alone, and a copy keeps only name and id.
 */
module Group {
  import opened Wrappers
  import Heos

  /**
   * The device type of leader and players is the `HeosDevice` the crate root
   * re-exports, the one of heos.rs that holds only a URL.
   */
  type HeosDevice = Heos.HeosDevice

  datatype HeosGroup = HeosGroup(
    name: string,
    groupId: string,
    leader: Option<HeosDevice>,
    players: Option<seq<HeosDevice>>)

  /** `HeosGroup::new`: the given name and id, no leader and no player list. */
  function New(name: string, groupId: string): (g: HeosGroup)
    ensures g.name == name && g.groupId == groupId
    ensures g.leader == None && g.players == None
  {
    HeosGroup(name, groupId, None, None)
  }

  /** The hand-written `Clone`: name and id are copied, leader and players always dropped. */
  function Clone(g: HeosGroup): (c: HeosGroup)
    ensures c.name == g.name && c.groupId == g.groupId
    ensures c.leader == None && c.players == None
  {
    HeosGroup(g.name, g.groupId, None, None)
  }

  /** The hand-written `PartialEq`: two groups are equal exactly when their ids are. */
  predicate Eq(a: HeosGroup, b: HeosGroup) {
    a.groupId == b.groupId
  }

  /** `Eq` is an equivalence relation: reflexive, symmetric and transitive. */
  lemma EqIsEquivalence(a: HeosGroup, b: HeosGroup, c: HeosGroup)
    ensures Eq(a, a)
    ensures Eq(a, b) <==> Eq(b, a)
    ensures Eq(a, b) && Eq(b, c) ==> Eq(a, c)
  {
  }

  /**
   * Name, leader and players play no part in equality: replacing them on either
   * side never changes the verdict, and groups with the same id are equal
   * however much else differs.
   */
  lemma EqIgnoresOtherFields(a: HeosGroup, b: HeosGroup, name: string, leader: Option<HeosDevice>, players: Option<seq<HeosDevice>>)
    ensures Eq(a, b) == Eq(HeosGroup(name, a.groupId, leader, players), b)
    ensures Eq(a, b) == Eq(a, HeosGroup(name, b.groupId, leader, players))
    ensures a.groupId == b.groupId ==> Eq(a, b)
  {
  }

  /** A clone compares equal to its original, whatever leader and players the original had. */
  lemma CloneEqualsOriginal(g: HeosGroup)
    ensures Eq(Clone(g), g) && Eq(g, Clone(g))
  {
  }

  /** A clone is exactly the group `New` builds from the original's name and id. */
  lemma CloneIsNew(g: HeosGroup)
    ensures Clone(g) == New(g.name, g.groupId)
  {
  }

  /** Cloning a clone changes nothing. */
  lemma CloneIdempotent(g: HeosGroup)
    ensures Clone(Clone(g)) == Clone(g)
  {
  }

  /**
   * A clone is the same value as its original exactly when the original had
   * neither a leader nor a player list; otherwise cloning loses information.
   */
  lemma CloneDropsLeaderAndPlayers(g: HeosGroup)
    ensures Clone(g) == g <==> g.leader == None && g.players == None
  {
  }
}
