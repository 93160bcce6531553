/**
 * The guild's list of target roles (the roles a lockdown or reopening applies to),
 * as edited by the `/config roles add` and `/config roles remove` commands.
 *
 * A role is identified by its numeric id. The list is written back to the
 * TARGET_ROLES setting as the ids in decimal, joined by commas.
 */
module Roles {

  type RoleId = nat

  /** True when no role occurs twice in `s`. */
  predicate NoDuplicates(s: seq<RoleId>) {
    forall i, j :: 0 <= i < j < |s| ==> s[i] != s[j]
  }

  /** Position of the first occurrence of `x` in `s`. */
  function FirstIndex(s: seq<RoleId>, x: RoleId): (k: nat)
    requires x in s
    ensures k < |s| && s[k] == x
    ensures forall j :: 0 <= j < k ==> s[j] != x
  {
    if s[0] == x then 0 else 1 + FirstIndex(s[1..], x)
  }

  /** What Python's `list.remove` leaves: `s` without its first `x`, or `s` itself
      when `x` does not occur. */
  function RemoveFirst(s: seq<RoleId>, x: RoleId): (r: seq<RoleId>)
    ensures x !in s ==> r == s
    ensures x in s ==> |r| == |s| - 1
    ensures forall y :: y in r ==> y in s
  {
    if s == [] then []
    else if s[0] == x then s[1..]
    else [s[0]] + RemoveFirst(s[1..], x)
  }

  /** Removing deletes exactly the first occurrence and keeps the others in order. */
  lemma {:induction false} RemoveFirstAt(s: seq<RoleId>, x: RoleId)
    requires x in s
    ensures RemoveFirst(s, x) == s[..FirstIndex(s, x)] + s[FirstIndex(s, x) + 1..]
  {
    if s[0] != x {
      var t := s[1..];
      assert x in t;
      var k := FirstIndex(t, x);
      RemoveFirstAt(t, x);
      assert FirstIndex(s, x) == k + 1;
      assert RemoveFirst(s, x) == [s[0]] + (t[..k] + t[k + 1..]);
      assert s[..k + 1] == [s[0]] + t[..k];
      assert s[k + 2..] == t[k + 1..];
    }
  }

  /** Removing takes away exactly one copy of the role and nothing else. */
  lemma {:induction false} RemoveFirstMultiset(s: seq<RoleId>, x: RoleId)
    requires x in s
    ensures multiset(RemoveFirst(s, x)) == multiset(s) - multiset{x}
  {
    var k := FirstIndex(s, x);
    RemoveFirstAt(s, x);
    var before, after := s[..k], s[k + 1..];
    assert s == before + [x] + after;
    assert multiset(s) == multiset(before) + multiset{x} + multiset(after);
    assert multiset(RemoveFirst(s, x)) == multiset(before) + multiset(after);
  }

  /** Appending a role not yet present keeps the list free of duplicates. */
  lemma AppendKeepsNoDuplicates(s: seq<RoleId>, x: RoleId)
    requires NoDuplicates(s) && x !in s
    ensures NoDuplicates(s + [x])
  {
  }

  /** Removing a role keeps a list free of duplicates, and the role is then gone. */
  lemma {:induction false} RemoveKeepsNoDuplicates(s: seq<RoleId>, x: RoleId)
    requires NoDuplicates(s)
    ensures NoDuplicates(RemoveFirst(s, x))
    ensures x !in RemoveFirst(s, x)
  {
    if s != [] && s[0] != x {
      RemoveKeepsNoDuplicates(s[1..], x);
      assert s[0] !in s[1..];
    }
  }

  /** Adding a role the list lacks and then removing it gives back the original list. */
  lemma {:induction false} AddThenRemove(s: seq<RoleId>, x: RoleId)
    requires x !in s
    ensures RemoveFirst(s + [x], x) == s
  {
    if s != [] {
      assert (s + [x])[1..] == s[1..] + [x];
      AddThenRemove(s[1..], x);
    }
  }

  // ---------------------------------------------------------------------------
  // Encoding of the list stored in TARGET_ROLES
  // ---------------------------------------------------------------------------

  function DigitChar(d: nat): (c: char)
    requires d < 10
    ensures '0' <= c <= '9'
  {
    "0123456789"[d]
  }

  function DigitValue(c: char): (d: nat)
    requires '0' <= c <= '9'
    ensures d < 10 && DigitChar(d) == c
  {
    (c as int - '0' as int) as nat
  }

  /** `str(n)` for a non-negative integer: its decimal digits, no sign, no leading zero. */
  function Decimal(n: nat): (s: string)
    ensures |s| > 0
    ensures forall i :: 0 <= i < |s| ==> '0' <= s[i] <= '9'
    ensures |s| > 1 ==> s[0] != '0'
  {
    if n < 10 then [DigitChar(n)] else Decimal(n / 10) + [DigitChar(n % 10)]
  }

  /** The value of a string of decimal digits (reference decoder). */
  function DecimalValue(s: string): nat
    requires forall i :: 0 <= i < |s| ==> '0' <= s[i] <= '9'
  {
    if s == [] then 0 else 10 * DecimalValue(s[..|s| - 1]) + DigitValue(s[|s| - 1])
  }

  lemma {:induction false} DecimalRoundTrip(n: nat)
    ensures DecimalValue(Decimal(n)) == n
  {
    if n >= 10 {
      var s := Decimal(n);
      assert s[..|s| - 1] == Decimal(n / 10);
      DecimalRoundTrip(n / 10);
    }
  }

  /** `','.join([str(r) for r in roles])`. */
  function Join(roles: seq<RoleId>): (s: string)
    ensures roles == [] <==> s == []
    ensures forall i :: 0 <= i < |s| ==> s[i] == ',' || '0' <= s[i] <= '9'
  {
    if roles == [] then []
    else if |roles| == 1 then Decimal(roles[0])
    else Decimal(roles[0]) + "," + Join(roles[1..])
  }

  /** Number of ids a well-formed stored value holds: one more than its commas. */
  lemma {:induction false} JoinCommas(roles: seq<RoleId>)
    requires roles != []
    ensures multiset(Join(roles))[','] == |roles| - 1
  {
    if |roles| > 1 {
      JoinCommas(roles[1..]);
      var d := Decimal(roles[0]);
      assert ',' !in d;
      assert Join(roles) == d + "," + Join(roles[1..]);
      assert multiset(Join(roles)) == multiset(d) + multiset{','} + multiset(Join(roles[1..]));
    } else {
      assert ',' !in Decimal(roles[0]);
    }
  }

  /** Index of the first comma in `s`, or |s| when there is none. */
  function CommaAt(s: string): (k: nat)
    ensures k <= |s| && ',' !in s[..k]
    ensures k < |s| ==> s[k] == ','
  {
    if s == [] || s[0] == ',' then 0
    else
      var k := 1 + CommaAt(s[1..]);
      assert s[..k] == [s[0]] + s[1..][..k - 1];
      k
  }

  /** A reference decoder for the stored value: the model's own, used to show that the
      stored string determines the list. */
  function ParseIds(s: string): seq<RoleId>
    requires forall i :: 0 <= i < |s| ==> s[i] == ',' || '0' <= s[i] <= '9'
    decreases |s|
  {
    if s == [] then []
    else
      var k := CommaAt(s);
      assert forall i :: 0 <= i < k ==> s[..k][i] == s[i] && s[i] != ',';
      var field := DecimalValue(s[..k]);
      if k == |s| then [field] else [field] + ParseIds(s[k + 1..])
  }

  /** The stored encoding loses nothing: decoding the joined ids gives the list back. */
  lemma {:induction false} JoinRoundTrip(roles: seq<RoleId>)
    ensures ParseIds(Join(roles)) == roles
  {
    if roles != [] {
      var d := Decimal(roles[0]);
      var s := Join(roles);
      assert ',' !in d;
      DecimalRoundTrip(roles[0]);
      if |roles| == 1 {
        assert CommaAt(s) == |d| by { CommaAfterDigits(d, ""); }
        assert s[..|d|] == d;
      } else {
        var rest := Join(roles[1..]);
        assert s == d + ("," + rest);
        CommaAfterDigits(d, "," + rest);
        assert s[..|d|] == d;
        assert s[|d| + 1..] == rest;
        JoinRoundTrip(roles[1..]);
      }
    }
  }

  /** The first comma of `d + t`, when `d` has none and `t` is empty or starts with one. */
  lemma {:induction false} CommaAfterDigits(d: string, t: string)
    requires ',' !in d
    requires t == [] || t[0] == ','
    ensures CommaAt(d + t) == |d|
  {
    if d != [] {
      assert (d + t)[1..] == d[1..] + t;
      CommaAfterDigits(d[1..], t);
    }
  }

  /** Different lists are stored as different strings. */
  lemma JoinInjective(a: seq<RoleId>, b: seq<RoleId>)
    requires Join(a) == Join(b)
    ensures a == b
  {
    JoinRoundTrip(a);
    JoinRoundTrip(b);
  }

  // ---------------------------------------------------------------------------
  // The commands
  // ---------------------------------------------------------------------------

  /**
   * One guild's target-role setting while a command edits it: `roles` is the list the
   * command loaded, `stored` the TARGET_ROLES value last written.
   */
  class RoleSettings {
    var roles: seq<RoleId>
    var stored: string

    constructor (loaded: seq<RoleId>, column: string)
      ensures roles == loaded && stored == column
    {
      roles := loaded;
      stored := column;
    }

    /** `/config roles add`: rejects a role already listed, otherwise appends it and
        stores the new list. */
    method AddRole(role: RoleId) returns (added: bool)
      modifies this
      ensures added <==> role !in old(roles)
      ensures !added ==> roles == old(roles) && stored == old(stored)
      ensures added ==> roles == old(roles) + [role] && stored == Join(roles)
      ensures NoDuplicates(old(roles)) ==> NoDuplicates(roles)
    {
      if role in roles {
        return false;
      }
      roles := roles + [role];
      stored := Join(roles);
      added := true;
    }

    /** `/config roles remove`: rejects a role not listed, otherwise deletes its first
        occurrence and stores the new list. */
    method RemoveRole(role: RoleId) returns (removed: bool)
      modifies this
      ensures removed <==> role in old(roles)
      ensures !removed ==> roles == old(roles) && stored == old(stored)
      ensures removed ==> roles == RemoveFirst(old(roles), role) && stored == Join(roles)
      ensures NoDuplicates(old(roles)) ==> NoDuplicates(roles) && role !in roles
    {
      if role !in roles {
        return false;
      }
      if NoDuplicates(roles) {
        RemoveKeepsNoDuplicates(roles, role);
      }
      roles := RemoveFirst(roles, role);
      stored := Join(roles);
      removed := true;
    }
  }

  /** A client: adding a fresh role and removing it again restores the list. */
  method AddThenRemoveRestores(loaded: seq<RoleId>, role: RoleId)
    requires role !in loaded
  {
    var settings := new RoleSettings(loaded, Join(loaded));
    var added := settings.AddRole(role);
    var removed := settings.RemoveRole(role);
    AddThenRemove(loaded, role);
    assert added && removed;
    assert settings.roles == loaded && settings.stored == Join(loaded);
  }
}
