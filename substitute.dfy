/** GlobalStringSubstitute (src/CommonFunctions.cpp:62-74), the escaping primitive
    shared by the .reg renderer and parser, and the three substitutions built on it:
    newline expansion of key paths, its inverse, and value-name/string escaping. */
module Substitute {
  import opened Registry
  import opened Tokens

  /** `p` occurs in `s` at index `j`. */
  predicate OccursAt(s: Text, p: Text, j: nat) {
    j + |p| <= |s| && s[j..j + |p|] == p
  }

  /** `s.find(p, from)`: the first index at or after `from` where `p` occurs. */
  function Find(s: Text, p: Text, from: nat): (r: Option<nat>)
    ensures r.Some? ==> from <= r.value && r.value + |p| <= |s|
    decreases |s| - from
  {
    if |s| < from + |p| then None
    else if OccursAt(s, p, from) then Some(from)
    else Find(s, p, from + 1)
  }

  /** Find reports an occurrence. */
  lemma {:induction false} FindOccurs(s: Text, p: Text, from: nat)
    requires Find(s, p, from).Some?
    ensures OccursAt(s, p, Find(s, p, from).value)
    decreases |s| - from
  {
    if !OccursAt(s, p, from) {
      FindOccurs(s, p, from + 1);
    }
  }

  /** Find returns the first occurrence: none is skipped. */
  lemma {:induction false} FindFirst(s: Text, p: Text, from: nat, j: nat)
    requires from <= j && OccursAt(s, p, j)
    ensures Find(s, p, from).Some? && Find(s, p, from).value <= j
    decreases j - from
  {
    if !OccursAt(s, p, from) {
      FindFirst(s, p, from + 1, j);
    }
  }

  /** Find gives the first occurrence from `from` on. */
  lemma {:induction false} FindExact(s: Text, p: Text, from: nat, c: nat)
    requires from <= c && OccursAt(s, p, c)
    requires forall j :: from <= j < c ==> !OccursAt(s, p, j)
    ensures Find(s, p, from) == Some(c)
    decreases c - from
  {
    if from < c {
      FindExact(s, p, from + 1, c);
    }
  }

  /** The string GlobalStringSubstitute leaves behind: the first occurrence of `p`
      is replaced by `r` and the search goes on after it, so the inserted text is
      never searched again. */
  function Subst(s: Text, p: Text, r: Text): (t: Text)
    requires p != []
    decreases |s|
  {
    match Find(s, p, 0)
    case None => s
    case Some(i) => s[..i] + r + Subst(s[i + |p|..], p, r)
  }

  /** How many occurrences Subst replaces. */
  function Occurrences(s: Text, p: Text): nat
    requires p != []
    decreases |s|
  {
    match Find(s, p, 0)
    case None => 0
    case Some(i) => 1 + Occurrences(s[i + |p|..], p)
  }

  lemma OccursDrop(s: Text, p: Text, d: nat, k: nat)
    requires d <= |s|
    ensures OccursAt(s[d..], p, k) == OccursAt(s, p, d + k)
  {
    if d + k + |p| <= |s| {
      assert s[d..][k..k + |p|] == s[d + k..d + k + |p|];
    }
  }

  /** Searching the suffix s[d..] from k is searching s from d + k. */
  lemma {:induction false} FindDrop(s: Text, p: Text, d: nat, k: nat)
    requires d <= |s|
    ensures Find(s, p, d + k).Some? == Find(s[d..], p, k).Some?
    ensures Find(s, p, d + k).Some? ==> Find(s, p, d + k).value == d + Find(s[d..], p, k).value
    decreases |s| - d - k
  {
    OccursDrop(s, p, d, k);
    if d + k + |p| <= |s| && !OccursAt(s, p, d + k) {
      FindDrop(s, p, d, k + 1);
    }
  }

  /** No occurrence at the head: the first one is the first one of s[1..], moved by one. */
  lemma FindTail(t: Text, p: Text)
    requires 1 <= |t| && !OccursAt(t, p, 0)
    ensures Find(t, p, 0).Some? == Find(t[1..], p, 0).Some?
    ensures Find(t, p, 0).Some? ==> Find(t, p, 0).value == 1 + Find(t[1..], p, 0).value
  {
    FindDrop(t, p, 1, 0);
  }

  lemma Regroup(t: Text, u: Text, k: nat, r: Text, x: Text)
    requires |t| >= 1 && u == t[1..] && k <= |u|
    ensures [t[0]] + (u[..k] + r + x) == t[..k + 1] + r + x
  {
    assert t[..k + 1] == [t[0]] + u[..k];
  }

  /** Subst read as a left-to-right scan: an occurrence at the head is replaced and
      skipped whole; any other head unit is kept. */
  lemma SubstStep(s: Text, p: Text, r: Text)
    requires p != [] && s != []
    ensures OccursAt(s, p, 0) ==> Subst(s, p, r) == r + Subst(s[|p|..], p, r)
    ensures !OccursAt(s, p, 0) ==> Subst(s, p, r) == [s[0]] + Subst(s[1..], p, r)
  {
    if OccursAt(s, p, 0) {
      assert s[..0] + r == r;
    } else {
      FindTail(s, p);
      if Find(s[1..], p, 0).None? {
        assert [s[0]] + s[1..] == s;
      } else {
        SkipStep(s, p, r, Find(s[1..], p, 0).value);
      }
    }
  }

  lemma SkipStep(s: Text, p: Text, r: Text, k: nat)
    requires p != [] && 1 <= |s| && !OccursAt(s, p, 0)
    requires Find(s[1..], p, 0).Some? && Find(s[1..], p, 0).value == k
    requires Find(s, p, 0).Some? && Find(s, p, 0).value == k + 1
    ensures Subst(s, p, r) == [s[0]] + Subst(s[1..], p, r)
  {
    var u := s[1..];
    var x := Subst(s[k + 1 + |p|..], p, r);
    assert u[k + |p|..] == s[k + 1 + |p|..];
    assert Subst(u, p, r) == u[..k] + r + x;
    Regroup(s, u, k, r, x);
  }

  /** Replacing the whole of `p` inserts `r` once, even when `r` contains `p`. */
  lemma SubstNoRescan(p: Text, r: Text)
    requires p != []
    ensures Subst(p, p, r) == r
  {
    assert OccursAt(p, p, 0);
    SubstStep(p, p, r);
    assert p[|p|..] == [];
  }

  /** The loop of GlobalStringSubstitute, on a copy of the string. */
  method GlobalStringSubstitute(s: Text, p: Text, r: Text) returns (res: Text)
    requires p != []
    ensures res == Subst(s, p, r)
  {
    res := s;
    var start: nat := 0;
    var position := Find(res, p, start);
    while position.Some?
      invariant start <= |res|
      invariant res[..start] + Subst(res[start..], p, r) == Subst(s, p, r)
      invariant position == Find(res, p, start)
      decreases |res| - start
    {
      var i := position.value;
      var next := res[..i] + r + res[i + |p|..];
      ReplaceStep(res, next, p, r, start, i, Subst(s, p, r));
      res := next;
      start := i + |r|;
      position := Find(res, p, start);
    }
    LoopExit(res, p, r, start);
  }

  lemma LoopExit(res: Text, p: Text, r: Text, start: nat)
    requires p != [] && start <= |res| && Find(res, p, start).None?
    ensures res[..start] + Subst(res[start..], p, r) == res
  {
    FindDrop(res, p, start, 0);
    assert Subst(res[start..], p, r) == res[start..];
    assert res[..start] + res[start..] == res;
  }

  /** One turn of the loop keeps its invariant. */
  lemma ReplaceStep(res: Text, res': Text, p: Text, r: Text, start: nat, i: nat, goal: Text)
    requires p != [] && start <= |res| && Find(res, p, start).Some? && Find(res, p, start).value == i
    requires res' == res[..i] + r + res[i + |p|..]
    requires res[..start] + Subst(res[start..], p, r) == goal
    ensures i + |r| <= |res'|
    ensures res'[..i + |r|] + Subst(res'[i + |r|..], p, r) == goal
  {
    ReplaceFirst(res, p, r, start, i);
    Splice(res, res', r, i, |p|);
  }

  /** The occurrence found at i is the next one Subst replaces. */
  lemma ReplaceFirst(res: Text, p: Text, r: Text, start: nat, i: nat)
    requires p != [] && start <= |res| && Find(res, p, start).Some? && Find(res, p, start).value == i
    ensures i + |p| <= |res|
    ensures res[..start] + Subst(res[start..], p, r) == res[..i] + r + Subst(res[i + |p|..], p, r)
  {
    FindDropSome(res, p, start, i);
    ReplaceInTail(res, p, r, start, i);
  }

  lemma ReplaceInTail(res: Text, p: Text, r: Text, start: nat, i: nat)
    requires p != [] && start <= i && i + |p| <= |res|
    requires Find(res[start..], p, 0).Some? && Find(res[start..], p, 0).value == i - start
    ensures res[..start] + Subst(res[start..], p, r) == res[..i] + r + Subst(res[i + |p|..], p, r)
  {
    var tail := res[start..];
    Slices(res, start, i, |p|);
    var x := Subst(res[i + |p|..], p, r);
    assert Subst(tail, p, r) == tail[..i - start] + r + x;
    Rejoin(res[..start], tail[..i - start], res[..i], r, Subst(tail, p, r), x);
  }

  lemma Rejoin(a: Text, b: Text, ab: Text, r: Text, y: Text, x: Text)
    requires a + b == ab && y == b + r + x
    ensures a + y == ab + r + x
  {
  }

  lemma FindDropSome(s: Text, p: Text, d: nat, i: nat)
    requires d <= |s| && Find(s, p, d).Some? && Find(s, p, d).value == i
    ensures d <= i && i + |p| <= |s|
    ensures Find(s[d..], p, 0).Some? && Find(s[d..], p, 0).value == i - d
  {
    FindDrop(s, p, d, 0);
  }

  lemma Slices(s: Text, start: nat, i: nat, n: nat)
    requires start <= i && i + n <= |s|
    ensures s[start..][i - start + n..] == s[i + n..]
    ensures s[..start] + s[start..][..i - start] == s[..i]
  {
  }

  lemma Splice(res: Text, res': Text, r: Text, i: nat, n: nat)
    requires i + n <= |res|
    requires res' == res[..i] + r + res[i + n..]
    ensures i + |r| <= |res'|
    ensures res'[..i + |r|] == res[..i] + r
    ensures res'[i + |r|..] == res[i + n..]
  {
  }

  /** Each replacement changes the length by |r| - |p|. */
  lemma {:induction false} SubstLength(s: Text, p: Text, r: Text)
    requires p != []
    ensures |Subst(s, p, r)| == |s| + Occurrences(s, p) * (|r| - |p|)
    decreases |s|
  {
    if Find(s, p, 0).Some? {
      var i := Find(s, p, 0).value;
      SubstLength(s[i + |p|..], p, r);
      Distribute(Occurrences(s[i + |p|..], p), |r| - |p|);
    }
  }

  lemma Distribute(o: int, d: int)
    ensures (1 + o) * d == d + o * d
  {
  }

  /** A string in which the pattern does not occur is left unchanged. */
  lemma SubstAbsent(s: Text, p: Text, r: Text)
    requires p != [] && forall j :: !OccursAt(s, p, j)
    ensures Subst(s, p, r) == s
  {
    if Find(s, p, 0).Some? {
      FindOccurs(s, p, 0);
    }
  }

  // ---------------------------------------------------------------------------
  // Substitution of a single code unit
  // ---------------------------------------------------------------------------

  /** Each occurrence of the unit `c` replaced by `r`, one unit at a time. */
  function MapUnit(s: Text, c: char16, r: Text): (t: Text)
    ensures c !in s ==> t == s
  {
    if s == [] then [] else (if s[0] == c then r else [s[0]]) + MapUnit(s[1..], c, r)
  }

  lemma {:induction false} MapUnitAppend(a: Text, b: Text, c: char16, r: Text)
    ensures MapUnit(a + b, c, r) == MapUnit(a, c, r) + MapUnit(b, c, r)
  {
    if a != [] {
      var x := if a[0] == c then r else [a[0]];
      assert (a + b)[0] == a[0] && (a + b)[1..] == a[1..] + b;
      assert MapUnit(a + b, c, r) == x + MapUnit(a[1..] + b, c, r);
      MapUnitAppend(a[1..], b, c, r);
      assert MapUnit(a, c, r) == x + MapUnit(a[1..], c, r);
      Assoc3(x, MapUnit(a[1..], c, r), MapUnit(b, c, r));
    } else {
      assert a + b == b;
    }
  }

  lemma Assoc3(x: Text, y: Text, z: Text)
    ensures x + (y + z) == x + y + z
  {
  }

  /** With a one-unit pattern, GlobalStringSubstitute is a unit-by-unit map. */
  lemma {:induction false} SubstUnit(s: Text, c: char16, r: Text)
    ensures Subst(s, [c], r) == MapUnit(s, c, r)
    decreases |s|
  {
    if s != [] {
      assert s[0..1] == [s[0]];
      SubstStep(s, [c], r);
      SubstUnit(s[1..], c, r);
    }
  }

  // ---------------------------------------------------------------------------
  // Newlines in key paths and names
  // ---------------------------------------------------------------------------

  /** LF -> CRLF, as the renderer writes key paths and value strings. */
  function Expand(s: Text): (t: Text)
  {
    Subst(s, [LF], NewLines)
  }

  /** CRLF -> LF, as the parser reads key names. */
  function Fold(s: Text): (t: Text)
  {
    Subst(s, NewLines, [LF])
  }

  lemma ExpandAppend(a: Text, b: Text)
    ensures Expand(a + b) == Expand(a) + Expand(b)
  {
    SubstUnit(a + b, LF, NewLines);
    SubstUnit(a, LF, NewLines);
    SubstUnit(b, LF, NewLines);
    MapUnitAppend(a, b, LF, NewLines);
  }

  lemma {:induction false} MapUnitLFHead(s: Text)
    ensures MapUnit(s, LF, NewLines) == [] || MapUnit(s, LF, NewLines)[0] != LF
  {
  }

  /** Folding undoes expanding, for every string. */
  lemma {:induction false} FoldExpand(s: Text)
    ensures Fold(Expand(s)) == s
    decreases |s|
  {
    SubstUnit(s, LF, NewLines);
    FoldMapUnit(s);
  }

  lemma {:induction false} FoldMapUnit(s: Text)
    ensures Fold(MapUnit(s, LF, NewLines)) == s
    decreases |s|
  {
    if s != [] {
      var x := MapUnit(s, LF, NewLines);
      var rest := MapUnit(s[1..], LF, NewLines);
      assert x == (if s[0] == LF then NewLines else [s[0]]) + rest;
      if s[0] == LF {
        assert x[0..2] == NewLines && x[2..] == rest;
      } else {
        MapUnitLFHead(s[1..]);
        assert |x| >= 2 ==> x[1] == rest[0];
        assert |x| < 2 || x[0..2] != NewLines;
        assert x[1..] == rest;
      }
      SubstStep(x, NewLines, [LF]);
      FoldMapUnit(s[1..]);
    }
  }

  // ---------------------------------------------------------------------------
  // Escaping of value names and string data
  // ---------------------------------------------------------------------------

  /** The three substitutions applied to names and REG_SZ data, in that order. */
  function Escape(s: Text): (t: Text)
  {
    var backslashes := Subst(s, [Backslash], [Backslash, Backslash]);
    var quotes := Subst(backslashes, [Quote], [Backslash, Quote]);
    Subst(quotes, [LF], NewLines)
  }

  /** What escaping makes of one code unit. */
  function EscapeUnit(c: char16): (t: Text)
  {
    if c == Backslash then [Backslash, Backslash]
    else if c == Quote then [Backslash, Quote]
    else if c == LF then NewLines
    else [c]
  }

  /** Unit-by-unit escaping: an added backslash before each backslash and quote,
      CR before each LF. */
  /** A text that holds no backslash, quote or LF, so nothing in it is escaped. */
  predicate NothingToEscape(s: Text) {
    forall i :: 0 <= i < |s| ==> s[i] != Backslash && s[i] != Quote && s[i] != LF
  }

  function EscapeUnits(s: Text): (t: Text)
    ensures |t| >= |s|
    ensures t == s <==> NothingToEscape(s)
  {
    if s == [] then [] else EscapeUnit(s[0]) + EscapeUnits(s[1..])
  }

  lemma {:induction false} EscapeUnitsAppend(a: Text, b: Text)
    ensures EscapeUnits(a + b) == EscapeUnits(a) + EscapeUnits(b)
  {
    if a != [] {
      assert (a + b)[1..] == a[1..] + b;
      EscapeUnitsAppend(a[1..], b);
    } else {
      assert a + b == b;
    }
  }

  lemma {:induction false} MapUnitsEscape(s: Text)
    ensures MapUnit(MapUnit(MapUnit(s, Backslash, [Backslash, Backslash]), Quote, [Backslash, Quote]), LF, NewLines)
         == EscapeUnits(s)
    decreases |s|
  {
    if s != [] {
      var c := s[0];
      var a1 := if c == Backslash then [Backslash, Backslash] else [c];
      var a := MapUnit(s, Backslash, [Backslash, Backslash]);
      var a' := MapUnit(s[1..], Backslash, [Backslash, Backslash]);
      assert a == a1 + a';
      MapUnitAppend(a1, a', Quote, [Backslash, Quote]);
      var b1 := MapUnit(a1, Quote, [Backslash, Quote]);
      var b' := MapUnit(a', Quote, [Backslash, Quote]);
      MapUnitAppend(b1, b', LF, NewLines);
      MapUnitsEscape(s[1..]);
      assert MapUnit(b1, LF, NewLines) == EscapeUnit(c);
    }
  }

  /** Escape puts exactly one backslash before each original backslash and quote
      and a CR before each LF. */
  lemma EscapeIsUnitwise(s: Text)
    ensures Escape(s) == EscapeUnits(s)
  {
    var a := Subst(s, [Backslash], [Backslash, Backslash]);
    SubstUnit(s, Backslash, [Backslash, Backslash]);
    SubstUnit(a, Quote, [Backslash, Quote]);
    SubstUnit(Subst(a, [Quote], [Backslash, Quote]), LF, NewLines);
    MapUnitsEscape(s);
  }

  lemma EscapeEmpty(s: Text)
    ensures Escape(s) == [] <==> s == []
  {
    EscapeIsUnitwise(s);
  }
}
