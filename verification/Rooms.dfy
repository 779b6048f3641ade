/**
  Room identity: the two fixed channels and the private-room key derived from
  a pair of usernames (client.js:9-11 and server.js:24-26 define it identically),
  together with the inverse the client uses to decide which contact a badge
  belongs to (client.js:56).
 */
module Rooms {
  import opened Optional

  const Separator: char := '_'
  const General: string := "general"
  const Spam: string := "spam"

  /** Strict lexicographic order on strings, the comparison of JavaScript's default `sort`. */
  predicate Below(a: string, b: string)
  {
    if |a| == 0 then |b| > 0
    else if |b| == 0 then false
    else a[0] < b[0] || (a[0] == b[0] && Below(a[1..], b[1..]))
  }

  lemma {:induction false} BelowAsymmetric(a: string, b: string)
    ensures Below(a, b) ==> !Below(b, a)
  {
    if |a| > 0 && |b| > 0 && a[0] == b[0] {
      BelowAsymmetric(a[1..], b[1..]);
    }
  }

  lemma {:induction false} BelowTotal(a: string, b: string)
    ensures a != b ==> Below(a, b) || Below(b, a)
  {
    if a != b && |a| > 0 && |b| > 0 && a[0] == b[0] {
      assert a == [a[0]] + a[1..] && b == [b[0]] + b[1..];
      BelowTotal(a[1..], b[1..]);
    }
  }

  /** `[a, b].sort()`: a stable two-element sort. */
  function Sort2(a: string, b: string): (r: (string, string))
    ensures multiset{r.0, r.1} == multiset{a, b}
    ensures !Below(r.1, r.0)
    ensures !Below(b, a) ==> r == (a, b)
  {
    if Below(b, a) then BelowAsymmetric(b, a); (b, a) else (a, b)
  }

  /** `parts.join(sep)`. */
  function Join(parts: seq<string>, sep: char): (s: string)
    decreases |parts|
  {
    if |parts| == 0 then ""
    else if |parts| == 1 then parts[0]
    else parts[0] + [sep] + Join(parts[1..], sep)
  }

  /** `s.split(sep)` for a one-character separator: every occurrence cuts. */
  function Split(s: string, sep: char): (parts: seq<string>)
    ensures |parts| >= 1
    ensures forall i :: 0 <= i < |parts| ==> sep !in parts[i]
    ensures Join(parts, sep) == s
    decreases |s|
  {
    if |s| == 0 then [""]
    else
      var rest := Split(s[1..], sep);
      if s[0] == sep then
        assert ([""] + rest)[1..] == rest;
        assert s == [sep] + s[1..];
        [""] + rest
      else
        var parts := [[s[0]] + rest[0]] + rest[1..];
        assert parts[1..] == rest[1..];
        assert s == [s[0]] + s[1..];
        parts
  }

  lemma JoinPair(x: string, y: string, sep: char)
    ensures Join([x, y], sep) == x + [sep] + y
  {
    assert [x, y][1..] == [y];
  }

  /** The private-room key: the two names sorted and joined with `_`. */
  function PrivateRoomId(u1: string, u2: string): (room: string)
  {
    var sorted := Sort2(u1, u2);
    Join([sorted.0, sorted.1], Separator)
  }

  /** The key does not depend on which participant asks for it. */
  lemma PrivateRoomIdSymmetric(a: string, b: string)
    ensures PrivateRoomId(a, b) == PrivateRoomId(b, a)
  {
    if a != b {
      BelowTotal(a, b);
      BelowAsymmetric(a, b);
      BelowAsymmetric(b, a);
    }
  }

  /** The key of two names consists of the smaller name, the separator, and the larger name. */
  lemma PrivateRoomIdShape(a: string, b: string)
    ensures var room := PrivateRoomId(a, b);
      (room == a + [Separator] + b && !Below(b, a)) || (room == b + [Separator] + a && Below(b, a))
  {
    var sorted := Sort2(a, b);
    JoinPair(sorted.0, sorted.1, Separator);
  }

  /** A private room key always holds the separator, so it never names a channel. */
  lemma PrivateRoomIdHasSeparator(a: string, b: string)
    ensures Separator in PrivateRoomId(a, b)
    ensures PrivateRoomId(a, b) != General && PrivateRoomId(a, b) != Spam
  {
    PrivateRoomIdShape(a, b);
    var lo := if Below(b, a) then b else a;
    assert PrivateRoomId(a, b)[|lo|] == Separator;
    assert Separator !in General && Separator !in Spam;
  }

  lemma {:induction false} SplitWithoutSeparator(a: string, sep: char)
    requires sep !in a
    ensures Split(a, sep) == [a]
    decreases |a|
  {
    if |a| > 0 {
      SplitWithoutSeparator(a[1..], sep);
      assert [a[0]] + a[1..] == a;
    }
  }

  lemma {:induction false} SplitAtFirstSeparator(a: string, sep: char, t: string)
    requires sep !in a
    ensures Split(a + [sep] + t, sep) == [a] + Split(t, sep)
    decreases |a|
  {
    var u := a + [sep] + t;
    if |a| == 0 {
      assert u[1..] == t;
    } else {
      assert u[1..] == a[1..] + [sep] + t;
      SplitAtFirstSeparator(a[1..], sep, t);
      assert [a[0]] + a[1..] == a;
    }
  }

  /** `split` undoes `join` when no part contains the separator. */
  lemma {:induction false} SplitJoin(parts: seq<string>, sep: char)
    requires |parts| >= 1
    requires forall i :: 0 <= i < |parts| ==> sep !in parts[i]
    ensures Split(Join(parts, sep), sep) == parts
    decreases |parts|
  {
    if |parts| == 1 {
      SplitWithoutSeparator(parts[0], sep);
    } else {
      SplitJoin(parts[1..], sep);
      SplitAtFirstSeparator(parts[0], sep, Join(parts[1..], sep));
      assert [parts[0]] + parts[1..] == parts;
    }
  }

  /** A private-room key splits back into the sorted pair of names. */
  lemma SplitPrivateRoomId(a: string, b: string)
    requires Separator !in a && Separator !in b
    ensures var sorted := Sort2(a, b);
      Split(PrivateRoomId(a, b), Separator) == [sorted.0, sorted.1]
  {
    var sorted := Sort2(a, b);
    SplitJoin([sorted.0, sorted.1], Separator);
  }

  /**
    The key identifies the unordered pair of participants, provided neither
    name contains the separator (the source does not enforce this).
   */
  lemma PrivateRoomIdInjective(a: string, b: string, c: string, d: string)
    requires Separator !in a && Separator !in b && Separator !in c && Separator !in d
    requires PrivateRoomId(a, b) == PrivateRoomId(c, d)
    ensures (a == c && b == d) || (a == d && b == c)
  {
    SplitPrivateRoomId(a, b);
    SplitPrivateRoomId(c, d);
    var s1, s2 := Sort2(a, b), Sort2(c, d);
    assert s1 == s2;
    assert multiset{a, b} == multiset{c, d};
    assert a in multiset{c, d} && b in multiset{c, d};
  }

  /** The separator is not a guard: two different pairs can share a key. */
  lemma SeparatorInNameCollides()
    ensures PrivateRoomId("a_b", "c") == PrivateRoomId("a", "b_c")
  {
    assert Below("a", "c") && Below("a", "b_c");
  }

  /** `parts.find(u => u !== me)`, where a missing `me` (no user logged in) differs from every name. */
  function FirstOther(parts: seq<string>, me: Option<string>): (r: Option<string>)
    ensures r.None? <==> forall i :: 0 <= i < |parts| ==> Some(parts[i]) == me
    ensures r.Some? ==>
              exists i :: (0 <= i < |parts| && parts[i] == r.value && Some(parts[i]) != me
                           && forall j :: 0 <= j < i ==> Some(parts[j]) == me)
  {
    if |parts| == 0 then None
    else if Some(parts[0]) != me then Some(parts[0])
    else
      var r := FirstOther(parts[1..], me);
      assert forall i :: 1 <= i < |parts| ==> parts[i] == parts[1..][i - 1];
      if r.Some? then
        var k :| 0 <= k < |parts[1..]| && parts[1..][k] == r.value && Some(parts[1..][k]) != me
          && forall j :: 0 <= j < k ==> Some(parts[1..][j]) == me;
        assert parts[k + 1] == r.value;
        r
      else r
  }

  /**
    The contact whose badge shows a room's unread count: for a room containing
    `_` the first part of the key that is not the logged-in user, otherwise the
    room itself.
   */
  function BadgeTarget(room: string, me: Option<string>): (target: Option<string>)
    ensures Separator !in room ==> target == Some(room)
    ensures Separator in room && target.Some? ==> Separator !in target.value && target != me
  {
    if Separator in room then FirstOther(Split(room, Separator), me) else Some(room)
  }

  /** The badge of a private room lands on the other participant. */
  lemma PrivateRoomBadgeTarget(me: string, other: string)
    requires me != other
    requires Separator !in me && Separator !in other
    ensures BadgeTarget(PrivateRoomId(me, other), Some(me)) == Some(other)
  {
    SplitPrivateRoomId(me, other);
    var sorted := Sort2(me, other);
    var room := PrivateRoomId(me, other);
    assert Separator in room by {
      PrivateRoomIdShape(me, other);
      assert room[|sorted.0|] == Separator;
    }
    var parts := [sorted.0, sorted.1];
    assert multiset{sorted.0, sorted.1} == multiset{me, other};
    if sorted.0 == me {
      assert sorted.1 == other by { assert sorted.1 in multiset{me, other}; }
      assert FirstOther(parts[1..], Some(me)) == Some(other);
    } else {
      assert sorted.0 == other by { assert sorted.0 in multiset{me, other}; }
    }
  }

  /** A room with oneself has no other participant, so its badge has no target. */
  lemma SelfRoomHasNoBadgeTarget(me: string)
    requires Separator !in me
    ensures BadgeTarget(PrivateRoomId(me, me), Some(me)) == None
  {
    SplitPrivateRoomId(me, me);
    PrivateRoomIdShape(me, me);
    assert PrivateRoomId(me, me)[|me|] == Separator;
  }
}
