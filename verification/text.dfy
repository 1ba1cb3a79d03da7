/** Foundation's string operations that the converter relies on — trimming a
    character set, splitting on a separator, joining with a separator and
    replacing a character — restated over `seq<char>`. */
module Text {
  import opened Wrappers

  /** The two Foundation character sets the converter trims with:
      `.whitespaces` (space and tab) and `.whitespacesAndNewlines`. */
  datatype CharClass = Whitespaces | WhitespacesAndNewlines

  predicate InClass(c: char, cls: CharClass) {
    match cls
    case Whitespaces => c == ' ' || c == '\t'
    case WhitespacesAndNewlines => c == ' ' || c == '\t' || c == '\n' || c == '\r'
  }

  predicate AllInClass(s: string, cls: CharClass) {
    forall i :: 0 <= i < |s| ==> InClass(s[i], cls)
  }

  /** Neither end of `s` is a character of `cls`. */
  predicate IsTrimmed(s: string, cls: CharClass) {
    s == [] || (!InClass(s[0], cls) && !InClass(s[|s| - 1], cls))
  }

  /** `r` is the slice of `s` starting at `a`, and everything around it is in `cls`. */
  predicate TrimmedAt(s: string, r: string, cls: CharClass, a: nat) {
    && a + |r| <= |s|
    && r == s[a..a + |r|]
    && AllInClass(s[..a], cls)
    && AllInClass(s[a + |r|..], cls)
  }

  /** Length of the longest prefix of `s` made of `cls` characters; the
      character after it, if any, is not one. */
  function LeadingCount(s: string, cls: CharClass): (n: nat)
    ensures n <= |s|
    ensures n < |s| ==> !InClass(s[n], cls)
    decreases |s|
  {
    if |s| == 0 || !InClass(s[0], cls) then 0 else 1 + LeadingCount(s[1..], cls)
  }

  /** The prefix `LeadingCount` measures is made of `cls` characters only. */
  lemma {:induction false} LeadingAll(s: string, cls: CharClass)
    ensures AllInClass(s[..LeadingCount(s, cls)], cls)
    decreases |s|
  {
    if |s| > 0 && InClass(s[0], cls) {
      LeadingAll(s[1..], cls);
      var n := LeadingCount(s, cls);
      assert forall i :: 1 <= i < n ==> s[..n][i] == s[1..][..n - 1][i - 1];
    }
  }

  /** Length of the longest suffix of `s` made of `cls` characters; the
      character before it, if any, is not one. */
  function TrailingCount(s: string, cls: CharClass): (n: nat)
    ensures n <= |s|
    ensures n < |s| ==> !InClass(s[|s| - n - 1], cls)
    decreases |s|
  {
    if |s| == 0 || !InClass(s[|s| - 1], cls) then 0 else 1 + TrailingCount(s[..|s| - 1], cls)
  }

  /** The suffix `TrailingCount` measures is made of `cls` characters only. */
  lemma {:induction false} TrailingAll(s: string, cls: CharClass)
    ensures AllInClass(s[|s| - TrailingCount(s, cls)..], cls)
    decreases |s|
  {
    if |s| > 0 && InClass(s[|s| - 1], cls) {
      var t := s[..|s| - 1];
      TrailingAll(t, cls);
      var n := TrailingCount(s, cls);
      var u := s[|s| - n..];
      var v := t[|t| - (n - 1)..];
      assert forall i :: 0 <= i < n - 1 ==> u[i] == v[i];
      assert u[n - 1] == s[|s| - 1];
    }
  }

  /** `String.trimmingCharacters(in:)`: drop the `cls` characters at both ends. */
  function Trim(s: string, cls: CharClass): (r: string)
    ensures IsTrimmed(r, cls)
    ensures |r| <= |s|
  {
    var a := LeadingCount(s, cls);
    if a == |s| then []
    else
      TrimBounds(s, cls);
      s[a..|s| - TrailingCount(s, cls)]
  }

  /** Unless `s` is all `cls` characters, its leading and trailing runs do
      not meet. */
  lemma TrimBounds(s: string, cls: CharClass)
    requires LeadingCount(s, cls) < |s|
    ensures LeadingCount(s, cls) + TrailingCount(s, cls) < |s|
  {
    TrailingStops(s, cls, LeadingCount(s, cls));
  }

  /** The trailing run stops before any character that is not in `cls`. */
  lemma {:induction false} TrailingStops(s: string, cls: CharClass, a: nat)
    requires a < |s| && !InClass(s[a], cls)
    ensures TrailingCount(s, cls) < |s| - a
    decreases |s|
  {
    if a < |s| - 1 && InClass(s[|s| - 1], cls) {
      TrailingStops(s[..|s| - 1], cls, a);
    }
  }

  /** Trimming only removes `cls` characters, and only at the two ends: the
      result is a slice of `s` with nothing but `cls` characters around it. */
  lemma TrimShape(s: string, cls: CharClass)
    ensures exists a: nat :: TrimmedAt(s, Trim(s, cls), cls, a)
  {
    LeadingAll(s, cls);
    TrailingAll(s, cls);
    var a := LeadingCount(s, cls);
    if a == |s| {
      assert Trim(s, cls) == [];
      assert s[..|s|] == s;
      assert TrimmedAt(s, [], cls, |s|);
    } else {
      var b := |s| - TrailingCount(s, cls);
      assert Trim(s, cls) == s[a..b];
      assert TrimmedAt(s, s[a..b], cls, a);
    }
  }

  /** Trimming keeps or drops every character that is not in `cls` together
      with the whole string: it only ever removes `cls` characters. */
  lemma TrimKeeps(s: string, cls: CharClass, c: char)
    requires !InClass(c, cls)
    ensures c in Trim(s, cls) <==> c in s
  {
    var r := Trim(s, cls);
    TrimShape(s, cls);
    var a: nat :| TrimmedAt(s, r, cls, a);
    assert s == s[..a] + r + s[a + |r|..];
    if c in s {
      var i :| 0 <= i < |s| && s[i] == c;
      assert !(i < a) && !(a + |r| <= i);
      assert r[i - a] == c;
    }
  }

  /** A trimmed string is unchanged by trimming, and so is one padded by a
      single space on each side once the padding is removed. */
  lemma TrimPadded(c: string)
    requires IsTrimmed(c, Whitespaces)
    ensures Trim(" " + c + " ", Whitespaces) == c
  {
    var s := " " + c + " ";
    var r := Trim(s, Whitespaces);
    TrimShape(s, Whitespaces);
    var a: nat :| TrimmedAt(s, r, Whitespaces, a);
    if c == [] {
      assert r == [];
    } else {
      assert s[0] == ' ' && s[1] == c[0];
      assert s[|s| - 1] == ' ' && s[|s| - 2] == c[|c| - 1];
      assert a == 1;
      assert r == s[1..|s| - 1];
    }
  }

  /** `sep` occurs in `s` starting at index `i`. */
  predicate OccursAt(s: string, sep: string, i: nat) {
    i + |sep| <= |s| && s[i..i + |sep|] == sep
  }

  predicate ContainsSub(s: string, sep: string) {
    exists i: nat :: i <= |s| && OccursAt(s, sep, i)
  }

  /** The first occurrence of `sep` in `s` at or after `i`. */
  function IndexFrom(s: string, sep: string, i: nat): (r: Option<nat>)
    requires |sep| > 0
    ensures r.Some? ==> i <= r.value && OccursAt(s, sep, r.value)
    ensures r.Some? ==> forall j: nat :: i <= j < r.value ==> !OccursAt(s, sep, j)
    ensures r.None? ==> forall j: nat :: i <= j ==> !OccursAt(s, sep, j)
    decreases |s| - i
  {
    if i + |sep| > |s| then None
    else if s[i..i + |sep|] == sep then Some(i)
    else IndexFrom(s, sep, i + 1)
  }

  /** A prefix that ends before the first occurrence of `sep` does not contain it. */
  lemma PrefixBeforeFirst(s: string, sep: string, i: nat)
    requires |sep| > 0 && i <= |s|
    requires forall j: nat :: j < i ==> !OccursAt(s, sep, j)
    ensures !ContainsSub(s[..i], sep)
  {
    forall j: nat | j <= i
      ensures !OccursAt(s[..i], sep, j)
    {
      if j + |sep| <= i {
        assert !OccursAt(s, sep, j);
        assert s[..i][j..j + |sep|] == s[j..j + |sep|];
      }
    }
  }

  /** `String.components(separatedBy:)`: the pieces between the leftmost,
      non-overlapping occurrences of `sep`, empty pieces included. */
  function SplitOn(s: string, sep: string): (parts: seq<string>)
    requires |sep| > 0
    ensures |parts| >= 1
    decreases |s|
  {
    match IndexFrom(s, sep, 0)
    case None => [s]
    case Some(i) => [s[..i]] + SplitOn(s[i + |sep|..], sep)
  }

  /** No piece of a split contains the separator. */
  lemma {:induction false} SplitPiecesFree(s: string, sep: string)
    requires |sep| > 0
    ensures forall k :: 0 <= k < |SplitOn(s, sep)| ==> !ContainsSub(SplitOn(s, sep)[k], sep)
    decreases |s|
  {
    match IndexFrom(s, sep, 0)
    case None =>
      PrefixBeforeFirst(s, sep, |s|);
      assert s[..|s|] == s;
    case Some(i) =>
      PrefixBeforeFirst(s, sep, i);
      SplitPiecesFree(s[i + |sep|..], sep);
  }

  /** `Array.joined(separator:)`. */
  function Join(parts: seq<string>, sep: string): string
    decreases |parts|
  {
    if |parts| == 0 then []
    else if |parts| == 1 then parts[0]
    else parts[0] + sep + Join(parts[1..], sep)
  }

  /** Splitting and joining again with the same separator gives back the text. */
  lemma {:induction false} JoinSplit(s: string, sep: string)
    requires |sep| > 0
    ensures Join(SplitOn(s, sep), sep) == s
    decreases |s|
  {
    var found := IndexFrom(s, sep, 0);
    if found.None? {
      assert SplitOn(s, sep) == [s];
    } else {
      var i := found.value;
      JoinSplit(s[i + |sep|..], sep);
      JoinAround(s, sep, i, SplitOn(s[i + |sep|..], sep));
    }
  }

  /** Putting back the separator found at `i` between the piece before it and
      the join of the pieces after it restores the text. */
  lemma JoinAround(s: string, sep: string, i: nat, tail: seq<string>)
    requires OccursAt(s, sep, i) && |tail| >= 1
    requires Join(tail, sep) == s[i + |sep|..]
    ensures Join([s[..i]] + tail, sep) == s
  {
    assert ([s[..i]] + tail)[1..] == tail;
    SliceThree(s, i, i + |sep|);
  }

  lemma SliceThree(s: string, i: nat, j: nat)
    requires i <= j <= |s|
    ensures s == s[..i] + s[i..j] + s[j..]
  {
  }

  /** With a one-character separator that no piece contains, joining and
      splitting again gives back the pieces. */
  lemma {:induction false} SplitJoin(parts: seq<string>, c: char)
    requires |parts| >= 1
    requires forall k :: 0 <= k < |parts| ==> c !in parts[k]
    ensures SplitOn(Join(parts, [c]), [c]) == parts
    decreases |parts|
  {
    var s := Join(parts, [c]);
    if |parts| == 1 {
      assert s[..|s|] == s;
      NoCharNoOccurrence(s, c, |s|);
    } else {
      var p := parts[0];
      var rest := Join(parts[1..], [c]);
      assert s == p + [c] + rest;
      NoCharNoOccurrence(s, c, |p|);
      assert OccursAt(s, [c], |p|);
      assert IndexFrom(s, [c], 0) == Some(|p|);
      assert s[..|p|] == p;
      assert s[|p| + 1..] == rest;
      SplitJoin(parts[1..], c);
    }
  }

  /** A one-character separator occurs exactly where that character is. */
  lemma NoCharNoOccurrence(s: string, c: char, n: nat)
    requires n <= |s| && c !in s[..n]
    ensures forall j: nat :: j < n ==> !OccursAt(s, [c], j)
    ensures n == |s| ==> IndexFrom(s, [c], 0).None?
  {
    forall j: nat | j < n
      ensures !OccursAt(s, [c], j)
    {
      assert s[..n][j] == s[j];
      if j + 1 <= |s| {
        assert s[j..j + 1] == [s[j]];
      }
    }
    if n == |s| {
      assert s[..n] == s;
    }
  }

  /** Splitting on one character gives one piece more than it has occurrences. */
  lemma {:induction false} SplitCount(s: string, c: char)
    ensures |SplitOn(s, [c])| == multiset(s)[c] + 1
    decreases |s|
  {
    match IndexFrom(s, [c], 0)
    case None =>
      NoOccurrenceNoChar(s, c, |s|);
      assert s[..|s|] == s;
    case Some(i) =>
      var rest := s[i + 1..];
      SplitCount(rest, c);
      assert s[i..i + 1] == [c];
      assert s == s[..i] + s[i..i + 1] + rest;
      NoOccurrenceNoChar(s, c, i);
      assert multiset(s) == multiset(s[..i]) + multiset([c]) + multiset(rest);
  }

  /** A prefix with no occurrence of `[c]` does not contain `c`. */
  lemma NoOccurrenceNoChar(s: string, c: char, n: nat)
    requires n <= |s|
    requires forall j: nat :: j < n ==> !OccursAt(s, [c], j)
    ensures c !in s[..n]
  {
    forall j | 0 <= j < n
      ensures s[..n][j] != c
    {
      assert !OccursAt(s, [c], j);
      assert s[j..j + 1] == [s[j]];
    }
  }

  /** `String.replacingOccurrences(of:with:)` for a one-character pattern. */
  function Replace(s: string, c: char, w: string): (r: string)
    ensures c !in w ==> c !in r
    ensures c !in s ==> r == s
    decreases |s|
  {
    if |s| == 0 then []
    else
      var rest := Replace(s[1..], c, w);
      assert s == [s[0]] + s[1..];
      (if s[0] == c then w else [s[0]]) + rest
  }

  /** Replacing `c` by nothing deletes exactly the occurrences of `c`. */
  lemma {:induction false} RemoveChar(s: string, c: char)
    ensures forall x :: x in Replace(s, c, "") <==> x in s && x != c
    decreases |s|
  {
    if |s| > 0 {
      RemoveChar(s[1..], c);
      assert s == [s[0]] + s[1..];
    }
  }

  /** Trimming leaves nothing exactly when every character is in `cls`. */
  lemma TrimEmpty(s: string, cls: CharClass)
    ensures Trim(s, cls) == [] <==> AllInClass(s, cls)
  {
    LeadingAll(s, cls);
    if LeadingCount(s, cls) == |s| {
      assert s[..|s|] == s;
    } else {
      TrimBounds(s, cls);
    }
  }

  /** A run of `cls` characters in front of a text that does not start with
      one is exactly the leading run. */
  lemma {:induction false} LeadingOver(a: string, t: string, cls: CharClass)
    requires AllInClass(a, cls)
    requires t != [] && !InClass(t[0], cls)
    ensures LeadingCount(a + t, cls) == |a|
    decreases |a|
  {
    if |a| == 0 {
      assert a + t == t;
    } else {
      assert (a + t)[0] == a[0];
      assert (a + t)[1..] == a[1..] + t;
      LeadingOver(a[1..], t, cls);
    }
  }

  /** A run of `cls` characters after a text that does not end with one is
      exactly the trailing run. */
  lemma {:induction false} TrailingOver(t: string, b: string, cls: CharClass)
    requires AllInClass(b, cls)
    requires t != [] && !InClass(t[|t| - 1], cls)
    ensures TrailingCount(t + b, cls) == |b|
    decreases |b|
  {
    if |b| == 0 {
      assert t + b == t;
    } else {
      var u := t + b;
      assert u[|u| - 1] == b[|b| - 1];
      assert u[..|u| - 1] == t + b[..|b| - 1];
      TrailingOver(t, b[..|b| - 1], cls);
    }
  }

  /** Trimming a trimmed text padded on both sides by `cls` characters gives
      the text back; in particular trimming is idempotent. */
  lemma TrimAround(a: string, t: string, b: string, cls: CharClass)
    requires AllInClass(a, cls) && AllInClass(b, cls)
    requires IsTrimmed(t, cls)
    ensures Trim(a + t + b, cls) == t
  {
    var s := a + t + b;
    if t == [] {
      assert s == a + b;
      TrimEmpty(s, cls);
    } else {
      assert s == a + (t + b);
      LeadingOver(a, t + b, cls);
      assert s == (a + t) + b;
      TrailingOver(a + t, b, cls);
      assert s[|a|..|s| - |b|] == t;
    }
  }

  /** Replacing in a concatenation replaces in each part. */
  lemma {:induction false} ReplaceAppend(x: string, y: string, c: char, w: string)
    ensures Replace(x + y, c, w) == Replace(x, c, w) + Replace(y, c, w)
    decreases |x|
  {
    if |x| == 0 {
      assert x + y == y;
    } else {
      assert (x + y)[0] == x[0];
      assert (x + y)[1..] == x[1..] + y;
      ReplaceAppend(x[1..], y, c, w);
    }
  }

  /** Replacing the separator of a join of pieces that do not contain it
      gives the join with the replacement as separator. */
  lemma {:induction false} ReplaceJoin(parts: seq<string>, c: char, w: string)
    requires forall k :: 0 <= k < |parts| ==> c !in parts[k]
    ensures Replace(Join(parts, [c]), c, w) == Join(parts, w)
    decreases |parts|
  {
    if |parts| >= 2 {
      var p := parts[0];
      var rest := Join(parts[1..], [c]);
      ReplaceJoin(parts[1..], c, w);
      ReplaceAppend(p + [c], rest, c, w);
      ReplaceAppend(p, [c], c, w);
      assert Replace([c], c, w) == w;
    }
  }

  /** Every character of every piece of a split comes from the text. */
  lemma {:induction false} SplitPiecesIn(s: string, sep: string)
    requires |sep| > 0
    ensures forall k, x :: 0 <= k < |SplitOn(s, sep)| && x in SplitOn(s, sep)[k] ==> x in s
    decreases |s|
  {
    match IndexFrom(s, sep, 0)
    case None =>
    case Some(i) =>
      var rest := s[i + |sep|..];
      SplitPiecesIn(rest, sep);
      assert forall x :: x in s[..i] ==> x in s;
      assert forall x :: x in rest ==> x in s;
  }

  /** With a two-character separator `[c, d]`, joining and splitting again
      gives back the pieces when no piece contains the separator and no
      piece but the last ends with `c`. */
  lemma {:induction false} SplitJoinPair(parts: seq<string>, c: char, d: char)
    requires |parts| >= 1
    requires forall k :: 0 <= k < |parts| ==> !ContainsSub(parts[k], [c, d])
    requires forall k :: 0 <= k < |parts| - 1 ==> parts[k] == [] || parts[k][|parts[k]| - 1] != c
    ensures SplitOn(Join(parts, [c, d]), [c, d]) == parts
    decreases |parts|
  {
    var sep := [c, d];
    var s := Join(parts, sep);
    if |parts| == 1 {
      assert s == parts[0];
      forall j: nat | j <= |s|
        ensures !OccursAt(s, sep, j)
      {
        assert !OccursAt(parts[0], sep, j);
      }
      assert IndexFrom(s, sep, 0).None?;
    } else {
      var p := parts[0];
      var rest := Join(parts[1..], sep);
      assert s == p + sep + rest;
      forall j: nat | j < |p|
        ensures !OccursAt(s, sep, j)
      {
        if j + 2 <= |p| {
          assert s[j..j + 2] == p[j..j + 2];
          assert !OccursAt(p, sep, j);
        } else {
          assert s[j] == p[|p| - 1];
        }
      }
      assert OccursAt(s, sep, |p|);
      assert IndexFrom(s, sep, 0) == Some(|p|);
      assert s[..|p|] == p;
      assert s[|p| + 2..] == rest;
      assert forall k :: 0 <= k < |parts| - 1 ==> parts[1..][k] == parts[k + 1];
      SplitJoinPair(parts[1..], c, d);
    }
  }


  /** A character in neither the pieces nor the separator is not in their join. */
  lemma {:induction false} JoinAvoids(parts: seq<string>, sep: string, c: char)
    requires c !in sep
    requires forall k :: 0 <= k < |parts| ==> c !in parts[k]
    ensures c !in Join(parts, sep)
    decreases |parts|
  {
    if |parts| >= 2 {
      JoinAvoids(parts[1..], sep, c);
    }
  }

  /** No two `c`s side by side. */
  predicate NoPair(s: string, c: char) {
    forall i :: 0 <= i < |s| - 1 ==> !(s[i] == c && s[i + 1] == c)
  }

  /** Non-empty pieces without `c`, joined with `[c]`, never put two `c`s
      side by side, and the join starts with a character other than `c`. */
  lemma {:induction false} JoinNoDouble(parts: seq<string>, c: char)
    requires forall k :: 0 <= k < |parts| ==> parts[k] != [] && c !in parts[k]
    ensures NoPair(Join(parts, [c]), c)
    ensures |parts| >= 1 ==> Join(parts, [c]) != [] && Join(parts, [c])[0] != c
    decreases |parts|
  {
    var s := Join(parts, [c]);
    if |parts| == 1 {
      assert parts[0][0] in parts[0];
      forall i | 0 <= i < |s| - 1
        ensures !(s[i] == c && s[i + 1] == c)
      {
        assert s[i] in parts[0];
      }
    } else if |parts| >= 2 {
      var p := parts[0];
      var rest := Join(parts[1..], [c]);
      JoinNoDouble(parts[1..], c);
      assert s == p + [c] + rest;
      assert p[0] in p;
      forall i | 0 <= i < |s| - 1
        ensures !(s[i] == c && s[i + 1] == c)
      {
        if i < |p| {
          assert s[i] == p[i] && p[i] in p;
        } else if i == |p| {
          assert s[i + 1] == rest[0];
        } else {
          assert s[i] == rest[i - |p| - 1] && s[i + 1] == rest[i - |p|];
        }
      }
    }
  }

  /** A text with no two `c`s side by side does not contain `[c, c]`. */
  lemma NoDoubleNoPair(s: string, c: char)
    requires NoPair(s, c)
    ensures !ContainsSub(s, [c, c])
  {
    forall j: nat | j <= |s|
      ensures !OccursAt(s, [c, c], j)
    {
      if j + 2 <= |s| {
        assert s[j..j + 2][0] == s[j] && s[j..j + 2][1] == s[j + 1];
      }
    }
  }

  predicate StartsWith(s: string, prefix: string) {
    |prefix| <= |s| && s[..|prefix|] == prefix
  }

  predicate EndsWith(s: string, suffix: string) {
    |suffix| <= |s| && s[|s| - |suffix|..] == suffix
  }

  /** Concatenation is associative. */
  lemma AppendAssoc<T>(a: seq<T>, b: seq<T>, c: seq<T>)
    ensures (a + b) + c == a + (b + c)
  {
  }
}
