/** The handful of `String.prototype` operations the page script relies on, with the
    semantics ECMA-262 gives them for a string (not regular expression) argument:
    `indexOf`, `split`, `replace` (first occurrence only), and `Array.prototype.join`
    and `pop` on the pieces. */
module JsString {
  import opened Wrappers

  /** `sep` occurs in `s` starting at index `i`. */
  predicate OccursAt(s: string, sep: string, i: nat) {
    i + |sep| <= |s| && s[i..i + |sep|] == sep
  }

  ghost predicate Contains(s: string, sep: string) {
    exists i: nat :: OccursAt(s, sep, i)
  }

  /** The first index at or after `from` where `sep` occurs. */
  function IndexOf(s: string, sep: string, from: nat): (r: Option<nat>)
    ensures r.Some? ==> from <= r.value && OccursAt(s, sep, r.value)
    decreases |s| - from
  {
    if from + |sep| > |s| then None
    else if OccursAt(s, sep, from) then Some(from)
    else IndexOf(s, sep, from + 1)
  }

  /** `s.split(sep)` for a non-empty separator: the pieces between the occurrences of
      `sep` found scanning from the left. The empty string splits into one empty piece. */
  function Split(s: string, sep: string): (parts: seq<string>)
    requires |sep| > 0
    ensures 1 <= |parts|
    decreases |s|
  {
    match IndexOf(s, sep, 0)
    case None => [s]
    case Some(i) => [s[..i]] + Split(s[i + |sep|..], sep)
  }

  /** `parts.join(sep)`. */
  function Join(parts: seq<string>, sep: string): string {
    if |parts| == 0 then ""
    else if |parts| == 1 then parts[0]
    else parts[0] + sep + Join(parts[1..], sep)
  }

  /** `parts.pop()` read for its result: the last element. */
  function Last<T>(parts: seq<T>): T
    requires 1 <= |parts|
  {
    parts[|parts| - 1]
  }

  /** No occurrence lies between `from` and the index found, nor anywhere from `from` on
      when none is found. */
  lemma {:induction false} IndexOfFirst(s: string, sep: string, from: nat, j: nat)
    requires from <= j
    requires IndexOf(s, sep, from).None? || j < IndexOf(s, sep, from).value
    ensures !OccursAt(s, sep, j)
    decreases |s| - from
  {
    if from + |sep| <= |s| && !OccursAt(s, sep, from) && from < j {
      IndexOfFirst(s, sep, from + 1, j);
    }
  }

  /** An occurrence with none before it, from `from` on, is the one `indexOf` finds. */
  lemma {:induction false} IndexOfAt(s: string, sep: string, from: nat, i: nat)
    requires from <= i && OccursAt(s, sep, i)
    requires forall j: nat :: from <= j < i ==> !OccursAt(s, sep, j)
    ensures IndexOf(s, sep, from) == Some(i)
    decreases i - from
  {
    if from < i {
      assert !OccursAt(s, sep, from);
      IndexOfAt(s, sep, from + 1, i);
    }
  }

  /** `indexOf` finds nothing exactly when there is no occurrence. */
  lemma IndexOfNone(s: string, sep: string)
    ensures IndexOf(s, sep, 0).None? <==> !Contains(s, sep)
  {
    if IndexOf(s, sep, 0).None? {
      forall j: nat
        ensures !OccursAt(s, sep, j)
      {
        IndexOfFirst(s, sep, 0, j);
      }
    }
  }

  /** A string holding the separator splits into at least two pieces, and one without
      it into itself alone. */
  lemma SplitCount(s: string, sep: string)
    requires |sep| > 0
    ensures Contains(s, sep) ==> 2 <= |Split(s, sep)|
    ensures !Contains(s, sep) ==> Split(s, sep) == [s]
  {
    IndexOfNone(s, sep);
  }

  /** Putting an element in front does not change the last element. */
  lemma LastCons<T>(x: T, xs: seq<T>)
    requires 1 <= |xs|
    ensures Last([x] + xs) == Last(xs)
  {
  }

  /** `s.replace(target, replacement)` with a string pattern: only the first occurrence is replaced. */
  function ReplaceFirst(s: string, target: string, replacement: string): string {
    match IndexOf(s, target, 0)
    case None => s
    case Some(i) => s[..i] + replacement + s[i + |target|..]
  }

  lemma NoOccurrence(s: string, sep: string)
    requires !Contains(s, sep)
    ensures IndexOf(s, sep, 0) == None
  {
  }

  /** An occurrence inside a prefix of `s` is an occurrence in `s`. */
  lemma OccursInPrefix(s: string, sep: string, n: nat, j: nat)
    requires n <= |s| && OccursAt(s[..n], sep, j)
    ensures OccursAt(s, sep, j)
  {
    assert s[..n][j..j + |sep|] == s[j..j + |sep|];
  }

  /** `s.includes(sep)`. */
  function Includes(s: string, sep: string): bool {
    IndexOf(s, sep, 0).Some?
  }

  /** `includes` reports exactly whether the separator occurs somewhere. */
  lemma IncludesContains(s: string, sep: string)
    ensures Includes(s, sep) <==> Contains(s, sep)
  {
    IndexOfNone(s, sep);
  }

  /** For a one-character separator, containment is plain character membership. */
  lemma ContainsChar(s: string, c: char)
    ensures Contains(s, [c]) <==> c in s
  {
    if c in s {
      var j :| 0 <= j < |s| && s[j] == c;
      assert OccursAt(s, [c], j);
    }
    if Contains(s, [c]) {
      var j: nat :| OccursAt(s, [c], j);
      assert s[j] == s[j..j + 1][0];
    }
  }

  /** No piece of a split contains the separator. */
  lemma {:induction false} SplitPiecesFree(s: string, sep: string)
    requires |sep| > 0
    ensures forall k :: 0 <= k < |Split(s, sep)| ==> !Contains(Split(s, sep)[k], sep)
    decreases |s|
  {
    match IndexOf(s, sep, 0)
    case None =>
      IndexOfNone(s, sep);
      assert Split(s, sep) == [s];
    case Some(i) =>
      SplitStep(s, sep, i);
      SplitPiecesFree(s[i + |sep|..], sep);
      if Contains(s[..i], sep) {
        var j: nat :| OccursAt(s[..i], sep, j);
        OccursInPrefix(s, sep, i, j);
        IndexOfFirst(s, sep, 0, j);
      }
  }

  /** Joining the pieces of a split with the same separator gives back the string. */
  lemma {:induction false} JoinSplit(s: string, sep: string)
    requires |sep| > 0
    ensures Join(Split(s, sep), sep) == s
    decreases |s|
  {
    match IndexOf(s, sep, 0)
    case None =>
    case Some(i) =>
      var t := s[i + |sep|..];
      SplitStep(s, sep, i);
      JoinCons(s[..i], Split(t, sep), sep);
      JoinSplit(t, sep);
      assert s == s[..i] + sep + t;
  }

  /** Joining a piece in front of at least one other adds it and a separator. */
  lemma JoinCons(first: string, rest: seq<string>, sep: string)
    requires 1 <= |rest|
    ensures Join([first] + rest, sep) == first + sep + Join(rest, sep)
  {
    assert ([first] + rest)[1..] == rest;
  }

  /** In `p + [c] + t` with `c` not in `p`, the first `c` is the one after `p`. */
  lemma IndexOfCharAfter(p: string, c: char, t: string)
    requires c !in p
    ensures IndexOf(p + [c] + t, [c], 0) == Some(|p|)
  {
    var s := p + [c] + t;
    assert OccursAt(s, [c], |p|);
    forall j: nat | j < |p|
      ensures !OccursAt(s, [c], j)
    {
      assert s[j..j + 1][0] == s[j] == p[j];
    }
    IndexOfAt(s, [c], 0, |p|);
  }

  /** A split cut at the first occurrence: the piece before it, then the split of the
      rest after it. */
  lemma SplitStep(s: string, sep: string, i: nat)
    requires |sep| > 0 && IndexOf(s, sep, 0) == Some(i)
    ensures Split(s, sep) == [s[..i]] + Split(s[i + |sep|..], sep)
  {
  }

  /** Splitting `p + [c] + t` on `c`, with `c` not in `p`, gives `p` and then the split
      of `t`. */
  lemma SplitAfterChar(p: string, c: char, t: string)
    requires c !in p
    ensures Split(p + [c] + t, [c]) == [p] + Split(t, [c])
  {
    var s := p + [c] + t;
    IndexOfCharAfter(p, c, t);
    SplitStep(s, [c], |p|);
    assert s[..|p|] == p;
    assert s[|p| + 1..] == t;
  }

  /** Splitting a join on a one-character separator that no piece contains gives back
      the pieces. */
  lemma {:induction false} SplitJoin(parts: seq<string>, c: char)
    requires 1 <= |parts|
    requires forall k :: 0 <= k < |parts| ==> c !in parts[k]
    ensures Split(Join(parts, [c]), [c]) == parts
    decreases |parts|
  {
    if |parts| == 1 {
      ContainsChar(parts[0], c);
      NoOccurrence(parts[0], [c]);
    } else {
      var tail := Join(parts[1..], [c]);
      assert Join(parts, [c]) == parts[0] + [c] + tail;
      SplitAfterChar(parts[0], c, tail);
      SplitJoin(parts[1..], c);
      assert parts == [parts[0]] + parts[1..];
    }
  }

  /** At the first occurrence `i`, the last piece is that of the rest after it. */
  lemma LastAfterFirst(s: string, sep: string, i: nat)
    requires |sep| > 0 && IndexOf(s, sep, 0) == Some(i)
    ensures Last(Split(s, sep)) == Last(Split(s[i + |sep|..], sep))
  {
    SplitStep(s, sep, i);
    LastCons(s[..i], Split(s[i + |sep|..], sep));
  }

  /** `s` ends with `sep` followed by `r`. */
  ghost predicate EndsWithAfter(s: string, sep: string, r: string) {
    |sep| + |r| <= |s| && s[|s| - |r| - |sep|..] == sep + r
  }

  /** When `s` holds the separator, it ends with the separator followed by the last
      piece of its split. */
  lemma {:induction false} LastPieceSuffix(s: string, sep: string)
    requires |sep| > 0 && IndexOf(s, sep, 0).Some?
    ensures EndsWithAfter(s, sep, Last(Split(s, sep)))
    decreases |s|
  {
    var i := IndexOf(s, sep, 0).value;
    var t := s[i + |sep|..];
    if IndexOf(t, sep, 0).Some? {
      LastPieceSuffix(t, sep);
      SuffixThroughFirst(s, sep, i);
    } else {
      SuffixAtLast(s, sep, i);
    }
  }

  /** The step of the induction: what the rest after the first occurrence ends with,
      the whole string ends with too. */
  lemma SuffixThroughFirst(s: string, sep: string, i: nat)
    requires |sep| > 0 && IndexOf(s, sep, 0) == Some(i)
    requires EndsWithAfter(s[i + |sep|..], sep, Last(Split(s[i + |sep|..], sep)))
    ensures EndsWithAfter(s, sep, Last(Split(s, sep)))
  {
    var t := s[i + |sep|..];
    LastAfterFirst(s, sep, i);
    SuffixOfRest(s, i + |sep|, sep + Last(Split(t, sep)));
  }

  /** The base of the induction: after the last occurrence comes the last piece. */
  lemma SuffixAtLast(s: string, sep: string, i: nat)
    requires |sep| > 0 && IndexOf(s, sep, 0) == Some(i)
    requires IndexOf(s[i + |sep|..], sep, 0).None?
    ensures EndsWithAfter(s, sep, Last(Split(s, sep)))
  {
    var t := s[i + |sep|..];
    LastAfterFirst(s, sep, i);
    assert Split(t, sep) == [t];
    assert s[i..] == sep + t;
  }

  /** A suffix of the text after index `k` is a suffix of the whole text. */
  lemma SuffixOfRest(s: string, k: nat, x: string)
    requires k <= |s| && |x| <= |s| - k && s[k..][|s| - k - |x|..] == x
    ensures s[|s| - |x|..] == x
  {
    assert s[k..][|s| - k - |x|..] == s[|s| - |x|..];
  }

  /** The last piece of a split is the text after the last occurrence of the separator:
      `s` ends with `sep` followed by it, and it holds no further occurrence. */
  lemma LastOfSplit(s: string, sep: string)
    requires |sep| > 0
    ensures var r := Last(Split(s, sep));
      && !Contains(r, sep)
      && (!Contains(s, sep) ==> r == s)
      && (Contains(s, sep) ==> |sep| + |r| <= |s| && s[|s| - |r| - |sep|..] == sep + r)
  {
    SplitPiecesFree(s, sep);
    SplitCount(s, sep);
    IndexOfNone(s, sep);
    if Contains(s, sep) {
      LastPieceSuffix(s, sep);
      assert EndsWithAfter(s, sep, Last(Split(s, sep)));
    }
  }

  /** A string none of whose characters starts `sep` holds no occurrence of `sep`. */
  lemma NoFirstChar(s: string, sep: string)
    requires |sep| > 0 && sep[0] !in s
    ensures !Contains(s, sep)
  {
    forall j: nat
      ensures !OccursAt(s, sep, j)
    {
      if j + |sep| <= |s| {
        assert s[j..j + |sep|][0] == s[j];
      }
    }
  }

  /** A string that starts with the separator and holds no other occurrence splits into
      an empty piece and the rest. */
  lemma SplitAtStart(sep: string, t: string)
    requires |sep| > 0 && !Contains(t, sep)
    ensures Split(sep + t, sep) == ["", t]
  {
    assert OccursAt(sep + t, sep, 0);
    assert (sep + t)[|sep|..] == t;
    NoOccurrence(t, sep);
  }

  /** Replacing the first `c` of `[c] + t` removes the leading `c`. */
  lemma ReplaceFirstAtStart(c: char, t: string)
    ensures ReplaceFirst([c] + t, [c], "") == t
  {
    assert OccursAt([c] + t, [c], 0);
  }

  /** Replacing the first `c` of `t + [c]` with `c` not in `t` removes the trailing `c`. */
  lemma ReplaceFirstAtEnd(t: string, c: char)
    requires c !in t
    ensures ReplaceFirst(t + [c], [c], "") == t
  {
    IndexOfCharAfter(t, c, "");
    assert t + [c] + "" == t + [c];
    assert (t + [c])[..|t|] == t;
  }
}
