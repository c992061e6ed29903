/**
 * The elimination table's string keys: "team_kind" is built from a team and a
 * piece kind, and a key's team is read back as the text before its first
 * underscore (the first field of splitting on "_").
 */
module KeyEncoding {

  const UNDERSCORE: char := '_'

  /** The key of a (team, kind) pair: team, an underscore, kind. */
  function KeyString(team: string, kind: string): string
  {
    team + [UNDERSCORE] + kind
  }

  /** The team a key is credited to: everything before its first underscore. */
  function TeamOfKey(key: string): (team: string)
    ensures team <= key
    ensures UNDERSCORE !in team
    ensures |team| < |key| ==> key[|team|] == UNDERSCORE
  {
    if key == [] || key[0] == UNDERSCORE then []
    else [key[0]] + TeamOfKey(key[1..])
  }

  /** A team name without underscores is read back from its key unchanged. */
  lemma {:induction false} KeyRoundTrip(team: string, kind: string)
    requires UNDERSCORE !in team
    ensures TeamOfKey(KeyString(team, kind)) == team
  {
    if team != [] {
      assert KeyString(team, kind)[1..] == KeyString(team[1..], kind);
      KeyRoundTrip(team[1..], kind);
    }
  }

  /** For teams without underscores, distinct (team, kind) pairs get distinct keys. */
  lemma KeyInjective(t1: string, k1: string, t2: string, k2: string)
    requires UNDERSCORE !in t1 && UNDERSCORE !in t2
    requires KeyString(t1, k1) == KeyString(t2, k2)
    ensures t1 == t2 && k1 == k2
  {
    KeyRoundTrip(t1, k1);
    KeyRoundTrip(t2, k2);
    assert KeyString(t1, k1)[|t1| + 1..] == k1;
    assert KeyString(t2, k2)[|t2| + 1..] == k2;
  }

  /** A team whose name holds an underscore has its key credited to another team. */
  lemma UnderscoreTeamMisattributed()
    ensures TeamOfKey(KeyString("a_b", "K")) == "a"
    ensures KeyString("a_b", "K") == KeyString("a", "b_K")
  {
    assert KeyString("a_b", "K") == ['a', '_', 'b', '_', 'K'];
    assert TeamOfKey(['_', 'b', '_', 'K']) == [];
  }
}
