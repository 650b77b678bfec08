/**
 * The parts of java.lang.String that the application relies on: indexOf,
 * split with the default limit, trim, compareTo and hashCode, plus the two
 * ways the application joins names with a separator.
 */
module JavaStrings {
  import opened Wrappers

  /** `d` occurs in `s` starting at index `k`. */
  predicate OccursAt(s: string, d: string, k: nat)
  {
    k + |d| <= |s| && s[k..k + |d|] == d
  }

  lemma OccursShift(s: string, d: string)
    requires |s| > 0
    ensures forall k: nat :: 1 <= k ==> OccursAt(s, d, k) == OccursAt(s[1..], d, k - 1)
  {
    forall k: nat | 1 <= k ensures OccursAt(s, d, k) == OccursAt(s[1..], d, k - 1) {
      if k + |d| <= |s| {
        var a, b := s[k..k + |d|], s[1..][k - 1..k - 1 + |d|];
        forall i | 0 <= i < |d| ensures a[i] == b[i] {
        }
        assert a == b;
      }
    }
  }

  /** The leftmost index at which `d` occurs in `s` (String.indexOf). */
  function IndexOf(s: string, d: string): (r: Option<nat>)
    requires |d| > 0
    ensures r.Some? ==> OccursAt(s, d, r.value)
    ensures r.Some? ==> forall k: nat :: k < r.value ==> !OccursAt(s, d, k)
    ensures r.None? ==> forall k: nat :: !OccursAt(s, d, k)
    decreases |s|
  {
    if |s| < |d| then None
    else if s[..|d|] == d then Some(0)
    else
      assert !OccursAt(s, d, 0);
      OccursShift(s, d);
      match IndexOf(s[1..], d)
      case None => None
      case Some(k) => Some(k + 1)
  }

  /** Every piece between successive leftmost occurrences of `d`, the last remainder included. */
  function SplitAll(s: string, d: string): (r: seq<string>)
    requires |d| > 0
    ensures |r| >= 1
    decreases |s|
  {
    match IndexOf(s, d)
    case None => [s]
    case Some(k) => [s[..k]] + SplitAll(s[k + |d|..], d)
  }

  /** Removes the empty strings at the end of a list of pieces. */
  function DropTrailingEmpty(p: seq<string>): (r: seq<string>)
    ensures |r| <= |p| && r == p[..|r|]
    ensures |r| > 0 ==> r[|r| - 1] != ""
    ensures forall i :: |r| <= i < |p| ==> p[i] == ""
  {
    if |p| > 0 && p[|p| - 1] == "" then DropTrailingEmpty(p[..|p| - 1]) else p
  }

  /**
   * String.split(d) with the default limit 0, for a separator without regular
   * expression metacharacters: with no occurrence the result is the whole
   * string (even the empty one); otherwise every piece, minus trailing empty ones.
   */
  function Split(s: string, d: string): (r: seq<string>)
    requires |d| > 0
  {
    if IndexOf(s, d).None? then [s] else DropTrailingEmpty(SplitAll(s, d))
  }

  /** The characters String.trim removes: every code point up to U+0020. */
  predicate IsTrimmed(c: char) { c <= ' ' }

  function TrimStart(s: string): (r: string)
    ensures |r| <= |s| && r == s[|s| - |r|..]
    ensures |r| > 0 ==> !IsTrimmed(r[0])
  {
    if |s| > 0 && IsTrimmed(s[0]) then TrimStart(s[1..]) else s
  }

  function TrimEnd(s: string): (r: string)
    ensures |r| <= |s| && r == s[..|r|]
    ensures |r| > 0 ==> !IsTrimmed(r[|r| - 1])
  {
    if |s| > 0 && IsTrimmed(s[|s| - 1]) then TrimEnd(s[..|s| - 1]) else s
  }

  /**
   * String.trim: what is left of `s` once the trimmed characters at both ends
   * are gone; it is empty exactly when every character of `s` is trimmed.
   */
  function Trim(s: string): (r: string)
    ensures |r| <= |s|
    ensures |r| > 0 ==> !IsTrimmed(r[0]) && !IsTrimmed(r[|r| - 1])
    ensures r == "" <==> forall i :: 0 <= i < |s| ==> IsTrimmed(s[i])
  {
    var t := TrimStart(s);
    AllTrimmedStart(s);
    AllTrimmedEnd(t);
    TrimEnd(t)
  }

  /** Trimming only takes characters away: what is left is a run of `s`. */
  lemma TrimChars(s: string)
    ensures forall c :: c in Trim(s) ==> c in s
  {
    var t := TrimStart(s);
    var r := Trim(s);
    var a := |s| - |t|;
    assert r == t[..|r|] && t == s[a..];
    forall c | c in r ensures c in s {
      var i :| 0 <= i < |r| && r[i] == c;
      assert s[a + i] == c;
    }
  }

  lemma {:induction false} AllTrimmedStart(s: string)
    ensures TrimStart(s) == "" <==> forall i :: 0 <= i < |s| ==> IsTrimmed(s[i])
  {
    if |s| > 0 && IsTrimmed(s[0]) {
      AllTrimmedStart(s[1..]);
      assert forall i :: 1 <= i < |s| ==> s[i] == s[1..][i - 1];
    }
  }

  lemma {:induction false} AllTrimmedEnd(s: string)
    ensures TrimEnd(s) == "" <==> forall i :: 0 <= i < |s| ==> IsTrimmed(s[i])
  {
    if |s| > 0 && IsTrimmed(s[|s| - 1]) {
      AllTrimmedEnd(s[..|s| - 1]);
    }
  }

  /**
   * String.compareTo: the difference of the first pair of differing characters,
   * or, when one string is a prefix of the other, the difference of the lengths.
   */
  function CompareTo(a: string, b: string): int
  {
    if |a| == 0 || |b| == 0 then |a| - |b|
    else if a[0] != b[0] then a[0] as int - b[0] as int
    else CompareTo(a[1..], b[1..])
  }

  /** The order Collections.sort imposes on strings. */
  predicate NameLe(a: string, b: string) { CompareTo(a, b) <= 0 }

  lemma {:induction false} CompareToZeroIffEqual(a: string, b: string)
    ensures CompareTo(a, b) == 0 <==> a == b
  {
    if |a| > 0 && |b| > 0 && a[0] == b[0] {
      CompareToZeroIffEqual(a[1..], b[1..]);
      assert a == [a[0]] + a[1..] && b == [b[0]] + b[1..];
    }
  }

  lemma {:induction false} CompareToAntisymmetric(a: string, b: string)
    ensures CompareTo(a, b) == -CompareTo(b, a)
  {
    if |a| > 0 && |b| > 0 && a[0] == b[0] {
      CompareToAntisymmetric(a[1..], b[1..]);
    }
  }

  lemma NameLeTotal(a: string, b: string)
    ensures NameLe(a, b) || NameLe(b, a)
  {
    CompareToAntisymmetric(a, b);
  }

  lemma NameLeAntisymmetric(a: string, b: string)
    requires NameLe(a, b) && NameLe(b, a)
    ensures a == b
  {
    CompareToAntisymmetric(a, b);
    CompareToZeroIffEqual(a, b);
  }

  lemma {:induction false} NameLeTransitive(a: string, b: string, c: string)
    requires NameLe(a, b) && NameLe(b, c)
    ensures NameLe(a, c)
  {
    if |a| == 0 || |b| == 0 || |c| == 0 {
    } else if a[0] == b[0] && b[0] == c[0] {
      NameLeTransitive(a[1..], b[1..], c[1..]);
    }
  }

  const TwoTo32: int := 0x1_0000_0000

  /** The hash of `s` as an unsigned 32-bit value: h := 31 * h + c, reduced after every step. */
  function Hash32(s: string): (h: nat)
    ensures h < TwoTo32
  {
    if s == [] then 0 else (31 * Hash32(s[..|s| - 1]) + s[|s| - 1] as int) % TwoTo32
  }

  /** String.hashCode: the unsigned hash read as a signed 32-bit int. */
  function HashCode(s: string): (h: int)
    ensures -0x8000_0000 <= h < 0x8000_0000
    ensures h % TwoTo32 == Hash32(s)
  {
    var u := Hash32(s);
    if u < 0x8000_0000 then u else u - TwoTo32
  }

  /** Each name followed by the separator: the form the in-progress walk and edits store. */
  function JoinTrailing(names: seq<string>, d: string): string
  {
    if names == [] then "" else names[0] + d + JoinTrailing(names[1..], d)
  }

  /** The names with the separator between them and none after the last. */
  function JoinPlain(names: seq<string>, d: string): string
  {
    if names == [] then ""
    else if |names| == 1 then names[0]
    else names[0] + d + JoinPlain(names[1..], d)
  }

  lemma {:induction false} JoinTrailingSnoc(names: seq<string>, x: string, d: string)
    ensures JoinTrailing(names + [x], d) == JoinTrailing(names, d) + x + d
  {
    if names != [] {
      assert (names + [x])[1..] == names[1..] + [x];
      JoinTrailingSnoc(names[1..], x, d);
    }
  }

  lemma {:induction false} JoinPlainAsTrailing(names: seq<string>, d: string)
    requires |names| > 0
    ensures JoinPlain(names, d) == JoinTrailing(names[..|names| - 1], d) + names[|names| - 1]
  {
    if |names| > 1 {
      JoinPlainAsTrailing(names[1..], d);
      assert names[1..][..|names| - 2] == names[..|names| - 1][1..];
    }
  }

  /**
   * A separator with exactly one comma: the stored tag separator " , " and the
   * displayed one ", " both have this shape.
   */
  predicate OneComma(d: string, j: nat)
  {
    j < |d| && d[j] == ',' && forall i :: 0 <= i < |d| && i != j ==> d[i] != ','
  }

  /** A name the codec can carry: not empty and without a comma. */
  predicate Carriable(n: string) { n != "" && ',' !in n }

  lemma NoSeparatorInName(n: string, d: string, j: nat)
    requires OneComma(d, j) && ',' !in n
    ensures IndexOf(n, d).None?
  {
    forall k: nat | k + |d| <= |n| ensures !OccursAt(n, d, k) {
      assert n[k..k + |d|][j] == n[k + j];
    }
  }

  /** In `n + d + rest`, the first separator is the one right after a comma-free name. */
  lemma SeparatorAfterName(n: string, d: string, j: nat, rest: string)
    requires OneComma(d, j) && ',' !in n
    ensures IndexOf(n + d + rest, d) == Some(|n|)
  {
    var s := n + d + rest;
    assert s[|n|..|n| + |d|] == d;
    assert OccursAt(s, d, |n|);
    forall k: nat | k < |n| ensures !OccursAt(s, d, k) {
      assert s[k..k + |d|][j] == s[k + j];
      if k + j < |n| {
        assert s[k + j] == n[k + j];
      } else {
        assert s[k + j] == d[k + j - |n|];
      }
    }
  }

  /** A comma-free name followed by the separator splits off as the first piece. */
  lemma SplitAllAfterName(n: string, d: string, j: nat, rest: string)
    requires OneComma(d, j) && ',' !in n
    ensures SplitAll(n + d + rest, d) == [n] + SplitAll(rest, d)
  {
    SeparatorAfterName(n, d, j, rest);
    var s := n + d + rest;
    assert s[..|n|] == n;
    assert s[|n| + |d|..] == rest;
  }

  lemma SplitAllEmpty(d: string)
    requires |d| > 0
    ensures SplitAll("", d) == [""]
  {
    assert IndexOf("", d).None?;
  }

  /** One step of SplitAllTrailing: the first name splits off ahead of the rest. */
  lemma SplitAllTrailingStep(names: seq<string>, d: string, j: nat)
    requires OneComma(d, j) && names != [] && ',' !in names[0]
    requires SplitAll(JoinTrailing(names[1..], d), d) == names[1..] + [""]
    ensures SplitAll(JoinTrailing(names, d), d) == names + [""]
  {
    var rest := JoinTrailing(names[1..], d);
    calc {
      SplitAll(JoinTrailing(names, d), d);
      SplitAll(names[0] + d + rest, d);
      { SplitAllAfterName(names[0], d, j, rest); }
      [names[0]] + SplitAll(rest, d);
      [names[0]] + (names[1..] + [""]);
      { assert names == [names[0]] + names[1..]; }
      names + [""];
    }
  }

  lemma {:induction false} SplitAllTrailing(names: seq<string>, d: string, j: nat)
    requires OneComma(d, j)
    requires forall i :: 0 <= i < |names| ==> ',' !in names[i]
    ensures SplitAll(JoinTrailing(names, d), d) == names + [""]
  {
    if names == [] {
      SplitAllEmpty(d);
    } else {
      SplitAllTrailing(names[1..], d, j);
      SplitAllTrailingStep(names, d, j);
    }
  }

  lemma {:induction false} SplitAllPlain(names: seq<string>, d: string, j: nat)
    requires OneComma(d, j) && |names| > 0
    requires forall i :: 0 <= i < |names| ==> ',' !in names[i]
    ensures SplitAll(JoinPlain(names, d), d) == names
  {
    if |names| == 1 {
      NoSeparatorInName(names[0], d, j);
    } else {
      var n := names[0];
      var rest := JoinPlain(names[1..], d);
      assert JoinPlain(names, d) == n + d + rest;
      SplitAllAfterName(n, d, j, rest);
      SplitAllPlain(names[1..], d, j);
      assert names == [n] + names[1..];
    }
  }

  /** Splitting what JoinTrailing produced gives the names back, for non-empty comma-free names. */
  lemma SplitJoinTrailing(names: seq<string>, d: string, j: nat)
    requires OneComma(d, j)
    requires forall i :: 0 <= i < |names| ==> Carriable(names[i])
    ensures Split(JoinTrailing(names, d), d) == if names == [] then [""] else names
  {
    if names == [] {
      assert IndexOf("", d).None?;
    } else {
      var s := JoinTrailing(names, d);
      assert s == names[0] + d + JoinTrailing(names[1..], d);
      SeparatorAfterName(names[0], d, j, JoinTrailing(names[1..], d));
      calc {
        Split(s, d);
        DropTrailingEmpty(SplitAll(s, d));
        { SplitAllTrailing(names, d, j); }
        DropTrailingEmpty(names + [""]);
        { assert (names + [""])[..|names|] == names; }
        names;
      }
    }
  }

  /** Splitting what JoinPlain produced gives the names back, for non-empty comma-free names. */
  lemma SplitJoinPlain(names: seq<string>, d: string, j: nat)
    requires OneComma(d, j)
    requires forall i :: 0 <= i < |names| ==> Carriable(names[i])
    ensures Split(JoinPlain(names, d), d) == if names == [] then [""] else names
  {
    if names == [] {
      assert IndexOf("", d).None?;
    } else if |names| == 1 {
      NoSeparatorInName(names[0], d, j);
    } else {
      SplitAllPlain(names, d, j);
      SeparatorAfterName(names[0], d, j, JoinPlain(names[1..], d));
    }
  }

  /** No piece of a split on a one-character separator contains that character. */
  lemma {:induction false} SplitAllPiecesFree(s: string, c: char)
    ensures forall i :: 0 <= i < |SplitAll(s, [c])| ==> c !in SplitAll(s, [c])[i]
    decreases |s|
  {
    match IndexOf(s, [c])
    case None =>
      forall k | 0 <= k < |s| ensures s[k] != c {
        assert !OccursAt(s, [c], k);
        assert s[k..k + 1] == [s[k]];
      }
    case Some(k) =>
      SplitAllPiecesFree(s[k + 1..], c);
      forall m | 0 <= m < k ensures s[..k][m] != c {
        assert !OccursAt(s, [c], m);
        assert s[m..m + 1] == [s[m]];
      }
  }

  lemma SplitPiecesFree(s: string, c: char)
    ensures forall i :: 0 <= i < |Split(s, [c])| ==> c !in Split(s, [c])[i]
  {
    SplitAllPiecesFree(s, c);
    var all := SplitAll(s, [c]);
    if IndexOf(s, [c]).Some? {
      var r := DropTrailingEmpty(all);
      forall i | 0 <= i < |r| ensures c !in r[i] {
        assert r[i] == all[..|r|][i] == all[i];
      }
    }
  }
}
