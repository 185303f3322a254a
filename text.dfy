/**
 * The JavaScript string operations the core relies on, over `seq<char>`:
 * `toLowerCase` (ASCII letters only), `indexOf` / `includes`, `startsWith`,
 * `split` with a non-empty separator, `join`, and `trim` (ASCII white space).
 */
module Text {
  import opened Wrappers

  // ---------------------------------------------------------------- case

  predicate IsUpper(c: char) {
    'A' <= c <= 'Z'
  }

  function LowerChar(c: char): char {
    if IsUpper(c) then (c as int + 32) as char else c
  }

  /** `s.toLowerCase()`, restricted to the ASCII letters. */
  function ToLower(s: string): (r: string)
    ensures |r| == |s|
    ensures forall i :: 0 <= i < |s| ==> r[i] == LowerChar(s[i])
  {
    seq(|s|, i requires 0 <= i < |s| => LowerChar(s[i]))
  }

  /** A lower-case letter appears after lower-casing only where it, or its capital, was. */
  lemma LowerCharAbsent(s: string, c: char)
    requires 'a' <= c <= 'z'
    requires c !in s && (c as int - 32) as char !in s
    ensures c !in ToLower(s)
  {
    forall i | 0 <= i < |s|
      ensures ToLower(s)[i] != c
    {
      assert s[i] in s;
    }
  }

  // ---------------------------------------------------------------- search

  /** `sub` occurs in `s` starting at index `i`. */
  predicate OccursAt(s: string, sub: string, i: int) {
    0 <= i && i + |sub| <= |s| && s[i..i + |sub|] == sub
  }

  /** `s.indexOf(sub, from)`: the first occurrence at or after `from`. */
  function IndexOfFrom(s: string, sub: string, from: nat): (r: Option<nat>)
    decreases |s| - from
    ensures r.Some? ==> from <= r.value && OccursAt(s, sub, r.value)
    ensures r.Some? ==> forall j :: from <= j < r.value ==> !OccursAt(s, sub, j)
    ensures r.None? ==> forall j :: from <= j ==> !OccursAt(s, sub, j)
  {
    if from + |sub| > |s| then None
    else if s[from..from + |sub|] == sub then Some(from)
    else IndexOfFrom(s, sub, from + 1)
  }

  /** `s.indexOf(sub)`, with `None` standing for -1. */
  function IndexOf(s: string, sub: string): Option<nat> {
    IndexOfFrom(s, sub, 0)
  }

  /** `s.includes(sub)`. */
  predicate Includes(s: string, sub: string) {
    IndexOf(s, sub).Some?
  }

  lemma IncludesIff(s: string, sub: string)
    ensures Includes(s, sub) <==> exists i :: OccursAt(s, sub, i)
  {
  }

  /** An occurrence with none before it is what `indexOf` finds. */
  lemma IndexOfFirst(s: string, sub: string, i: nat)
    requires OccursAt(s, sub, i)
    requires forall j :: 0 <= j < i ==> !OccursAt(s, sub, j)
    ensures IndexOf(s, sub) == Some(i)
  {
  }

  /** Every character of an occurring `sub` is a character of `s`. */
  lemma MissingCharExcludes(s: string, sub: string, k: nat)
    requires k < |sub| && sub[k] !in s
    ensures !Includes(s, sub)
  {
    forall i | 0 <= i && i + |sub| <= |s|
      ensures !OccursAt(s, sub, i)
    {
      assert s[i + k] in s;
      assert s[i..i + |sub|][k] == s[i + k];
    }
  }

  /** For a one-character needle, `includes` is plain membership. */
  lemma IncludesChar(s: string, c: char)
    ensures Includes(s, [c]) <==> c in s
  {
    if c in s {
      var i :| 0 <= i < |s| && s[i] == c;
      assert OccursAt(s, [c], i);
    }
    if Includes(s, [c]) {
      var i := IndexOf(s, [c]).value;
      assert s[i..i + 1] == [c];
      assert s[i] in s;
    }
  }

  /** `s.startsWith(prefix)`. */
  predicate StartsWith(s: string, prefix: string) {
    |prefix| <= |s| && s[..|prefix|] == prefix
  }

  // ---------------------------------------------------------------- split and join

  /** `xs.join(sep)`. */
  function Join(xs: seq<string>, sep: string): string {
    if |xs| == 0 then ""
    else if |xs| == 1 then xs[0]
    else xs[0] + sep + Join(xs[1..], sep)
  }

  /**
   * `s.split(sep)` for a non-empty separator: the pieces between occurrences,
   * found left to right. Joining the pieces back gives `s`, and no piece holds `sep`.
   */
  function Split(s: string, sep: string): (r: seq<string>)
    requires |sep| > 0
    decreases |s|
    ensures |r| >= 1
    ensures Join(r, sep) == s
  {
    match IndexOf(s, sep)
    case None => [s]
    case Some(i) =>
      var rest := Split(s[i + |sep|..], sep);
      assert s == s[..i] + sep + s[i + |sep|..] by {
        assert s[i..i + |sep|] == sep;
        assert s == s[..i] + s[i..i + |sep|] + s[i + |sep|..];
      }
      assert ([s[..i]] + rest)[1..] == rest;
      [s[..i]] + rest
  }

  /** The first piece of a split is the text before the first separator. */
  lemma SplitHead(s: string, sep: string)
    requires |sep| > 0
    ensures Split(s, sep)[0] == (match IndexOf(s, sep) case None => s case Some(i) => s[..i])
  {
  }

  /** No piece of a split holds the separator. */
  lemma {:induction false} SplitPiecesFree(s: string, sep: string)
    requires |sep| > 0
    decreases |s|
    ensures forall k :: 0 <= k < |Split(s, sep)| ==> !Includes(Split(s, sep)[k], sep)
  {
    match IndexOf(s, sep)
    case None =>
    case Some(i) =>
      var head := s[..i];
      forall j | 0 <= j && j + |sep| <= |head|
        ensures !OccursAt(head, sep, j)
      {
        assert s[j..j + |sep|] == head[j..j + |sep|];
        assert !OccursAt(s, sep, j);
      }
      SplitPiecesFree(s[i + |sep|..], sep);
      assert Split(s, sep) == [head] + Split(s[i + |sep|..], sep);
  }

  /**
   * A separator whose first character does not occur again in it cannot
   * straddle the boundary between a piece and the separator after it.
   */
  predicate SelfSeparating(sep: string) {
    |sep| > 0 && sep[0] !in sep[1..]
  }

  lemma SplitAfterFirst(x: string, rest: string, sep: string)
    requires SelfSeparating(sep)
    requires !Includes(x, sep)
    ensures Split(x + sep + rest, sep) == [x] + Split(rest, sep)
  {
    var s := x + sep + rest;
    assert s[|x|..|x| + |sep|] == sep;
    forall j | 0 <= j < |x|
      ensures !OccursAt(s, sep, j)
    {
      if j + |sep| <= |x| {
        assert s[j..j + |sep|] == x[j..j + |sep|];
        assert !OccursAt(x, sep, j);
      } else {
        var d := |x| - j;
        assert 1 <= d < |sep|;
        assert s[j..j + |sep|][d] == s[|x|] == sep[0];
        assert sep[1..][d - 1] == sep[d];
        assert sep[d] != sep[0];
      }
    }
    IndexOfFirst(s, sep, |x|);
    assert s[..|x|] == x;
    assert s[|x| + |sep|..] == rest;
  }

  /** Split inverts Join when no piece holds the separator. */
  lemma {:induction false} SplitJoin(xs: seq<string>, sep: string)
    requires SelfSeparating(sep)
    requires |xs| >= 1
    requires forall k :: 0 <= k < |xs| ==> !Includes(xs[k], sep)
    ensures Split(Join(xs, sep), sep) == xs
  {
    if |xs| == 1 {
      assert Join(xs, sep) == xs[0];
    } else {
      SplitAfterFirst(xs[0], Join(xs[1..], sep), sep);
      SplitJoin(xs[1..], sep);
      assert xs == [xs[0]] + xs[1..];
    }
  }

  /** Joining with a non-empty separator gives "" only for no pieces or one empty piece. */
  lemma JoinEmpty(xs: seq<string>, sep: string)
    requires |sep| > 0
    ensures Join(xs, sep) == "" <==> |xs| == 0 || (|xs| == 1 && xs[0] == "")
  {
    if |xs| >= 2 {
      assert |Join(xs, sep)| >= |sep|;
    }
  }

  // ---------------------------------------------------------------- trim

  /** The white space `trim` removes, restricted to ASCII. */
  predicate IsSpace(c: char) {
    c == ' ' || c == '\t' || c == '\n' || c == '\r' || c == '\U{000B}' || c == '\U{000C}'
  }

  /** `s.trimStart()`: drops the leading white space, keeping a suffix of `s`. */
  function TrimStart(s: string): (r: string)
    ensures |r| <= |s| && r == s[|s| - |r|..]
    ensures forall k :: 0 <= k < |s| - |r| ==> IsSpace(s[k])
    ensures r != [] ==> !IsSpace(r[0])
  {
    if |s| > 0 && IsSpace(s[0]) then
      var r := TrimStart(s[1..]);
      assert forall k :: 1 <= k < |s| - |r| ==> s[k] == s[1..][k - 1];
      r
    else
      s
  }

  /** `s.trimEnd()`: drops the trailing white space, keeping a prefix of `s`. */
  function TrimEnd(s: string): (r: string)
    ensures |r| <= |s| && r == s[..|r|]
    ensures forall k :: |r| <= k < |s| ==> IsSpace(s[k])
    ensures r != [] ==> !IsSpace(r[|r| - 1])
  {
    if |s| > 0 && IsSpace(s[|s| - 1]) then
      var r := TrimEnd(s[..|s| - 1]);
      assert forall k :: |r| <= k < |s| - 1 ==> s[k] == s[..|s| - 1][k];
      r
    else
      s
  }

  /** `s.trim()`: the slice left after dropping leading and trailing white space. */
  function Trim(s: string): (r: string)
    ensures exists i :: OuterSpace(s, i, r)
    ensures r != [] ==> !IsSpace(r[0]) && !IsSpace(r[|r| - 1])
  {
    var e := TrimEnd(s);
    var r := TrimStart(e);
    assert OuterSpace(s, |e| - |r|, r);
    r
  }

  /** `r` is the slice of `s` at `i`, and everything around it is white space. */
  predicate OuterSpace(s: string, i: int, r: string) {
    && 0 <= i && i + |r| <= |s| && r == s[i..i + |r|]
    && (forall k :: 0 <= k < i ==> IsSpace(s[k]))
    && (forall k :: i + |r| <= k < |s| ==> IsSpace(s[k]))
  }

  /** Trimming gives "" exactly when the text is all white space. */
  lemma TrimEmpty(s: string)
    ensures Trim(s) == "" <==> forall k :: 0 <= k < |s| ==> IsSpace(s[k])
  {
    var r := Trim(s);
    var i :| OuterSpace(s, i, r);
    if r != "" {
      assert s[i] == r[0];
      assert !IsSpace(s[i]);
    } else {
      forall k | 0 <= k < |s|
        ensures IsSpace(s[k])
      {
        if k < i {
        } else {
          assert i + |r| <= k;
        }
      }
    }
  }

  /** Text already without surrounding white space is left unchanged by `trim`. */
  lemma TrimTrimmed(s: string)
    requires s != [] ==> !IsSpace(s[0]) && !IsSpace(s[|s| - 1])
    ensures Trim(s) == s
  {
    var r := Trim(s);
    var i :| OuterSpace(s, i, r);
    if s != [] {
      assert i == 0 by {
        assert !IsSpace(s[0]);
      }
      assert i + |r| == |s| by {
        assert !IsSpace(s[|s| - 1]);
      }
    }
  }
}
