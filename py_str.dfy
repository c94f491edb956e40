/** Python's `str.find`, `str.split(sep)` and `sep.join(parts)` for a
    non-empty separator, and the whitespace test behind `str.strip()`. */
module PyStr {
  import opened Wrappers

  /** `d` occurs in `s` starting at index `k`. */
  predicate OccursAt(s: string, d: string, k: nat)
  {
    k + |d| <= |s| && s[k..k + |d|] == d
  }

  /** The first occurrence of `d` in `s` at or after index `i` (what it finds
      is stated by `FindFromFirst`). */
  function FindFrom(s: string, d: string, i: nat): (r: Option<nat>)
    requires d != ""
    ensures r.Some? ==> i <= r.value && r.value + |d| <= |s|
    decreases |s| - i
  {
    if i + |d| > |s| then None
    else if s[i..i + |d|] == d then Some(i)
    else FindFrom(s, d, i + 1)
  }

  /** `FindFrom` gives the first occurrence at or after `i`, and `None` exactly
      when there is none. */
  lemma {:induction false} FindFromFirst(s: string, d: string, i: nat)
    requires d != ""
    ensures var r := FindFrom(s, d, i);
      && (r.Some? ==> OccursAt(s, d, r.value))
      && (r.Some? ==> forall k: nat :: i <= k < r.value ==> !OccursAt(s, d, k))
      && (r.None? ==> forall k: nat :: i <= k ==> !OccursAt(s, d, k))
    decreases |s| - i
  {
    if i + |d| > |s| {
    } else if s[i..i + |d|] == d {
    } else {
      FindFromFirst(s, d, i + 1);
    }
  }

  /** `Find` in terms of occurrences. */
  lemma FindFirst(s: string, d: string)
    requires d != ""
    ensures Find(s, d).Some? ==> OccursAt(s, d, Find(s, d).value)
    ensures Find(s, d).Some? ==> forall k: nat :: k < Find(s, d).value ==> !OccursAt(s, d, k)
    ensures Find(s, d).None? <==> forall k: nat :: !OccursAt(s, d, k)
  {
    FindFromFirst(s, d, 0);
  }

  /** `s.find(d)`, with `None` for Python's -1. */
  function Find(s: string, d: string): Option<nat>
    requires d != ""
  {
    FindFrom(s, d, 0)
  }

  /** `s.split(d)`: the pieces between the non-overlapping occurrences of `d`,
      found left to right. */
  function Split(s: string, d: string): (parts: seq<string>)
    requires d != ""
    ensures |parts| >= 1
    ensures |parts| == 1 <==> Find(s, d).None?
    decreases |s|
  {
    match Find(s, d)
    case None => [s]
    case Some(k) => [s[..k]] + Split(s[k + |d|..], d)
  }

  /** `d.join(parts)`. */
  function Join(d: string, parts: seq<string>): string
  {
    if |parts| == 0 then ""
    else if |parts| == 1 then parts[0]
    else parts[0] + d + Join(d, parts[1..])
  }

  /** Joining the pieces of a split with the same separator gives back the
      string. */
  lemma {:induction false} JoinSplit(s: string, d: string)
    requires d != ""
    ensures Join(d, Split(s, d)) == s
    decreases |s|
  {
    match Find(s, d)
    case None =>
    case Some(k) =>
      var rest := s[k + |d|..];
      JoinSplit(rest, d);
      FindFirst(s, d);
      SplitAround(s, d, k);
      var parts := Split(s, d);
      assert parts == [s[..k]] + Split(rest, d);
      assert parts[0] == s[..k] && parts[1..] == Split(rest, d);
      assert |parts| >= 2;
      assert Join(d, parts) == s[..k] + d + Join(d, Split(rest, d));
  }

  /** Cutting an occurrence of `d` out of `s` and putting it back. */
  lemma SplitAround(s: string, d: string, k: nat)
    requires OccursAt(s, d, k)
    ensures s == s[..k] + d + s[k + |d|..]
  {
    assert s == s[..k] + s[k..k + |d|] + s[k + |d|..];
  }

  /** An occurrence of `d` inside a prefix of `s` is an occurrence in `s`. */
  lemma PrefixOccurrence(s: string, d: string, k: nat, j: nat)
    requires k <= |s| && OccursAt(s[..k], d, j)
    ensures OccursAt(s, d, j)
  {
    assert s[..k][j..j + |d|] == s[j..j + |d|];
  }

  /** No piece of a split contains the separator. */
  lemma {:induction false} SplitPiecesFree(s: string, d: string)
    requires d != ""
    ensures forall p :: p in Split(s, d) ==> Find(p, d).None?
    decreases |s|
  {
    match Find(s, d)
    case None =>
    case Some(k) =>
      var rest := s[k + |d|..];
      SplitPiecesFree(rest, d);
      FindFirst(s, d);
      FindFirst(s[..k], d);
      forall j: nat | OccursAt(s[..k], d, j)
        ensures false
      {
        PrefixOccurrence(s, d, k, j);
      }
      assert Find(s[..k], d).None?;
  }

  /** Python's `d.join(parts[:i]) + d + d.join(parts[i:])` equals
      `d.join(parts)` when both slices are non-empty. */
  lemma {:induction false} JoinAt(d: string, parts: seq<string>, i: nat)
    requires 1 <= i < |parts|
    ensures Join(d, parts[..i]) + d + Join(d, parts[i..]) == Join(d, parts)
  {
    if i > 1 {
      var tail := parts[1..];
      JoinAt(d, tail, i - 1);
      assert parts[..i][1..] == tail[..i - 1];
      assert tail[i - 1..] == parts[i..];
    } else {
      assert parts[..1] == [parts[0]];
      assert parts[1..] == parts[i..];
    }
  }

  /** A one-character separator occurs exactly where that character stands. */
  lemma OccursAtChar(s: string, c: char, k: nat)
    ensures OccursAt(s, [c], k) <==> k < |s| && s[k] == c
  {
    if k < |s| && s[k] == c {
      assert s[k..k + 1] == [c];
    }
  }

  /** `s.find(c)` on a one-character separator `c` absent from `s`. */
  lemma FindCharAbsent(s: string, c: char)
    requires c !in s
    ensures Find(s, [c]).None?
  {
    forall k: nat | OccursAt(s, [c], k)
      ensures false
    {
      OccursAtChar(s, c, k);
    }
    FindFirst(s, [c]);
  }

  /** `(x + c + y).find(c)` is `len(x)` when `c` is not in `x`. */
  lemma FindCharAfter(x: string, c: char, y: string)
    requires c !in x
    ensures Find(x + [c] + y, [c]) == Some(|x|)
  {
    var s := x + [c] + y;
    OccursAtChar(s, c, |x|);
    forall j: nat | j < |x|
      ensures !OccursAt(s, [c], j)
    {
      OccursAtChar(s, c, j);
      assert s[j] == x[j];
    }
    FindFirst(s, [c]);
  }

  /** Splitting on a one-character separator undoes joining pieces that do
      not contain it. */
  lemma {:induction false} SplitJoinChar(c: char, parts: seq<string>)
    requires |parts| >= 1
    requires forall k :: 0 <= k < |parts| ==> c !in parts[k]
    ensures Split(Join([c], parts), [c]) == parts
    decreases |parts|
  {
    if |parts| == 1 {
      FindCharAbsent(parts[0], c);
    } else {
      var rest := Join([c], parts[1..]);
      var s := parts[0] + [c] + rest;
      assert Join([c], parts) == s;
      FindCharAfter(parts[0], c, rest);
      assert s[..|parts[0]|] == parts[0];
      assert s[|parts[0]| + 1..] == rest;
      SplitJoinChar(c, parts[1..]);
      assert Split(s, [c]) == [parts[0]] + parts[1..];
      assert [parts[0]] + parts[1..] == parts;
    }
  }

  /** A character that Python's `str.isspace()` accepts. */
  predicate IsSpace(c: char)
  {
    c == ' ' || c == '\t' || c == '\n' || c == '\r'
    || c == '\U{000B}' || c == '\U{000C}'
    || ('\U{001C}' <= c <= '\U{001F}')
    || c == '\U{0085}' || c == '\U{00A0}' || c == '\U{1680}'
    || ('\U{2000}' <= c <= '\U{200A}')
    || c == '\U{2028}' || c == '\U{2029}' || c == '\U{202F}'
    || c == '\U{205F}' || c == '\U{3000}'
  }

  /** `not line.strip()`: the line is empty or only whitespace. */
  predicate IsBlank(line: string)
  {
    forall i :: 0 <= i < |line| ==> IsSpace(line[i])
  }
}
