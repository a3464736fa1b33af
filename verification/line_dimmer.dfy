/** The line dimmer (js/main.js lines 3-32): a `code` element whose class string holds a
    directive `hl=[<tokens>]` keeps the lines the tokens name and has every other line
    wrapped in a span at opacity 0.3. Tokens are 1-based line numbers `n` or inclusive
    ranges `a-b`, separated by single spaces. */
module LineDimmer {
  import opened Wrappers
  import opened JsString
  import opened JsNumber
  import opened Search

  /** The `RangeError` `new Array(len)` throws when `len` is not a valid array length. */
  datatype Error = InvalidArrayLength

  const DimOpen := "<span style=\"opacity: 0.3;\">"
  const DimClose := "</span>"

  /** The characters the repeated group `(\s*\d*(\-\d*)?)*` can consume. Each such
      character is on its own one iteration of the group, and each iteration consumes
      only such characters, so the group matches exactly the strings made of them. */
  predicate IsRunChar(c: char) {
    IsSpace(c) || IsDigit(c) || c == '-'
  }

  /** The text of a match of `hl=\[(\s*\d*(\-\d*)?)*]`: `hl=[`, a run of whitespace,
      digits and `-`, then `]`. */
  ghost predicate IsDirectiveText(m: string) {
    && 5 <= |m|
    && m[..4] == "hl=["
    && m[|m| - 1] == ']'
    && forall j :: 4 <= j < |m| - 1 ==> IsRunChar(m[j])
  }

  /** The length of the longest run of group characters in `s` from index `i`. */
  function RunLength(s: string, i: nat): (k: nat)
    requires i <= |s|
    ensures i + k <= |s|
    ensures forall j :: i <= j < i + k ==> IsRunChar(s[j])
    ensures i + k == |s| || !IsRunChar(s[i + k])
    decreases |s| - i
  {
    if i < |s| && IsRunChar(s[i]) then 1 + RunLength(s, i + 1) else 0
  }

  /** The length of the directive match anchored at `p`, if there is one. The group is
      greedy and `]` is not a group character, so backtracking to a shorter run can never
      reach a `]`: the match exists exactly when the longest run after `hl=[` is followed
      by `]`. */
  function MatchLength(s: string, p: nat): (r: Option<nat>)
    ensures r.Some? ==> p + r.value <= |s|
  {
    if OccursAt(s, "hl=[", p) then
      var k := RunLength(s, p + 4);
      if p + 4 + k < |s| && s[p + 4 + k] == ']' then Some(k + 5) else None
    else None
  }

  /** `s` holds directive text of length `len` at index `p`. */
  ghost predicate DirectiveAt(s: string, p: nat, len: nat) {
    p + len <= |s| && IsDirectiveText(s[p..p + len])
  }

  /** The anchored matcher finds a match of length `len` exactly when `s` holds directive
      text of that length at `p`; in particular there is at most one such length. */
  lemma MatchLengthExact(s: string, p: nat, len: nat)
    ensures MatchLength(s, p) == Some(len) <==> DirectiveAt(s, p, len)
  {
    if DirectiveAt(s, p, len) {
      var m := s[p..p + len];
      assert |m| == len;
      assert forall j :: 0 <= j < len ==> m[j] == s[p + j];
      assert s[p..p + 4] == m[..4];
    }
    if MatchLength(s, p) == Some(len) {
      var m := s[p..p + len];
      forall j | 4 <= j < |m| - 1
        ensures IsRunChar(m[j])
      {
        assert m[j] == s[p + j];
      }
    }
  }

  /** The first index at or after `from` where the anchored matcher succeeds: the scan a
      search without the sticky flag makes. It is the same scan as
      `FileLabeler.FirstMatch`, over this module's matcher. */
  function FirstMatch(s: string, from: nat): (r: Option<nat>)
    ensures r.Some? ==> from <= r.value <= |s| && MatchLength(s, r.value).Some?
    ensures forall q: nat :: from <= q <= |s| && (r.None? || q < r.value) ==> MatchLength(s, q).None?
    decreases |s| + 1 - from
  {
    if from > |s| then None
    else if MatchLength(s, from).Some? then Some(from)
    else FirstMatch(s, from + 1)
  }

  /** The leftmost directive in the class string, if any (js/main.js lines 6-7): the
      script tests the pattern first and then takes the whole text of the first match. */
  function FindDirective(cls: string): (r: Option<Match>)
    ensures r.Some? ==>
      && DirectiveAt(cls, r.value.start, |r.value.text|)
      && r.value.text == cls[r.value.start..r.value.start + |r.value.text|]
      && IsDirectiveText(r.value.text)
  {
    match FirstMatch(cls, 0)
    case None => None
    case Some(p) =>
      var len := MatchLength(cls, p).value;
      MatchLengthExact(cls, p, len);
      Some(Match(p, cls[p..p + len]))
  }

  /** The directive found is the leftmost one: there is a directive anywhere in the class
      string exactly when one is found, and none starts before it. */
  lemma FindDirectiveLeftmost(cls: string, p: nat, len: nat)
    requires DirectiveAt(cls, p, len)
    ensures FindDirective(cls).Some? && FindDirective(cls).value.start <= p
  {
    MatchLengthExact(cls, p, len);
  }

  /** The tokens of a directive (js/main.js lines 9-14): the text after the last `hl=`,
      with its first `[` and then its first `]` removed, split at every single space. */
  function Tokens(m: string): seq<string> {
    Split(ReplaceFirst(ReplaceFirst(Last(Split(m, "hl=")), "[", ""), "]", ""), " ")
  }
  /** The token list is the directive's inner run split on single spaces: the `hl=`
      prefix and the brackets are all that the split, pop and replaces remove. */
  lemma TokensOfDirective(m: string)
    requires IsDirectiveText(m)
    ensures Tokens(m) == Split(m[4..|m| - 1], " ")
  {
    var run := m[4..|m| - 1];
    var bracketed := ['['] + (run + "]");
    DirectiveShape(m);
    NoFirstChar(bracketed, "hl=");
    SplitAtStart("hl=", bracketed);
    assert Last(Split(m, "hl=")) == bracketed;
    ReplaceFirstAtStart('[', run + "]");
    ReplaceFirstAtEnd(run, ']');
  }

  /** Directive text is `hl=` followed by the bracketed run; the bracketed run holds no
      `h`, and the run holds no `]`. */
  lemma DirectiveShape(m: string)
    requires IsDirectiveText(m)
    ensures m == "hl=" + (['['] + (m[4..|m| - 1] + "]"))
    ensures 'h' !in ['['] + (m[4..|m| - 1] + "]") && ']' !in m[4..|m| - 1]
  {
    var run := m[4..|m| - 1];
    assert forall j :: 0 <= j < |run| ==> IsRunChar(run[j]);
    assert m[..4] == "hl=[";
    assert m == m[..4] + run + [m[|m| - 1]];
  }

  /** The bounds of a range token (js/main.js line 18): its first two pieces between
      hyphens, each parsed as a decimal number. Further pieces are ignored; a missing second
      piece is `undefined`, which is `NaN` in the arithmetic that follows. */
  function RangeBounds(x: string): (Number, Number) {
    var parts := Split(x, "-");
    (ParseInt(parts[0]), if 1 < |parts| then ParseInt(parts[1]) else None)
  }

  /** The array a valid range fills in (js/main.js lines 19-22): `len` consecutive
      indices from `lower - 1` up. */
  function RangeArray(lower: int, len: nat): (r: seq<Number>)
    ensures |r| == len
    ensures forall i :: 0 <= i < len ==> r[i] == Some(lower - 1 + i)
  {
    seq(len, i => Some(i + lower - 1))
  }

  /** The indices of a range (js/main.js lines 19-22): `lower - 1` through `upper - 1`,
      or a `RangeError` when the length `upper - lower + 1` is `NaN` or not a valid array
      length. */
  function ExpandRange(lower: Number, upper: Number): (r: Result<seq<Number>, Error>)
    ensures r.Success? <==>
      && lower.Some? && upper.Some?
      && 0 <= upper.value - lower.value + 1 <= MaxArrayLength
    ensures r.Success? ==>
      && |r.value| == upper.value - lower.value + 1
      && (forall i :: 0 <= i < |r.value| ==> r.value[i] == Some(lower.value - 1 + i))
  {
    match ArrayLength(Add(Sub(upper, lower), Some(1)))
    case None => Failure(InvalidArrayLength)
    case Some(len) => Success(RangeArray(lower.value, len))
  }

  /** The kept indices one token contributes (js/main.js lines 16-25): a token holding
      `-` is a range; any other token becomes `parseInt(x) - 1`, `NaN` when it does not
      parse. */
  function ExpandToken(x: string): (r: Result<seq<Number>, Error>)
    ensures !Includes(x, "-") ==>
      && r.Success? && |r.value| == 1
      && (r.value[0].Some? <==> ParseInt(x).Some?)
      && (r.value[0].Some? ==> r.value[0].value + 1 == ParseInt(x).value)
  {
    if Includes(x, "-") then
      var bounds := RangeBounds(x);
      ExpandRange(bounds.0, bounds.1)
    else
      Success([Sub(ParseInt(x), Some(1))])
  }

  /** Whether token `x` names the 0-based line `i` in the directive grammar: a range
      `a-b` names the 1-based lines a through b, a number `n` names line n. */
  ghost predicate TokenKeeps(x: string, i: int) {
    if Includes(x, "-") then
      var bounds := RangeBounds(x);
      bounds.0.Some? && bounds.1.Some? && bounds.0.value <= i + 1 <= bounds.1.value
    else
      ParseInt(x) == Some(i + 1)
  }

  /** A range token reads its first two `-`-separated pieces as the bounds. */
  lemma RangeBoundsPieces(x: string)
    requires Includes(x, "-")
    ensures 2 <= |Split(x, "-")|
    ensures RangeBounds(x) == (ParseInt(Split(x, "-")[0]), ParseInt(Split(x, "-")[1]))
  {
    IndexOfNone(x, "-");
    SplitCount(x, "-");
  }

  /** A range token expands from its bounds alone. */
  lemma ExpandTokenOfRange(x: string)
    requires Includes(x, "-")
    ensures ExpandToken(x) == ExpandRange(RangeBounds(x).0, RangeBounds(x).1)
  {
  }

  /** Two pieces free of `-` joined by one `-` read back as those bounds. */
  lemma RangeBoundsOfPair(lower: string, upper: string)
    requires '-' !in lower && '-' !in upper
    ensures Includes(lower + "-" + upper, "-")
    ensures RangeBounds(lower + "-" + upper) == (ParseInt(lower), ParseInt(upper))
  {
    var y := lower + "-" + upper;
    assert y[|lower|] == '-';
    assert Join([lower, upper], "-") == y;
    SplitJoin([lower, upper], '-');
  }

  /** Pieces after the second are ignored: `1-2-9` expands like `1-2`. */
  lemma RangeIgnoresExtraPieces(x: string)
    requires Includes(x, "-")
    ensures 2 <= |Split(x, "-")|
      && ExpandToken(x) == ExpandToken(Split(x, "-")[0] + "-" + Split(x, "-")[1])
  {
    RangeBoundsPieces(x);
    var parts := Split(x, "-");
    SplitPiecesFree(x, "-");
    ContainsChar(parts[0], '-');
    ContainsChar(parts[1], '-');
    var y := parts[0] + "-" + parts[1];
    RangeBoundsOfPair(parts[0], parts[1]);
    ExpandTokenOfRange(x);
    ExpandTokenOfRange(y);
  }

  /** A valid range keeps exactly the indices from `lower - 1` to `upper - 1`. */
  lemma ExpandRangeKeeps(lower: Number, upper: Number, i: int)
    requires ExpandRange(lower, upper).Success?
    ensures Some(i) in ExpandRange(lower, upper).value <==> lower.value <= i + 1 <= upper.value
  {
    var ns := ExpandRange(lower, upper).value;
    if lower.value <= i + 1 <= upper.value {
      assert ns[i + 1 - lower.value] == Some(i);
    }
  }

  /** A token that expands keeps exactly the lines it names. */
  lemma ExpandTokenKeeps(x: string, i: int)
    requires ExpandToken(x).Success?
    ensures Some(i) in ExpandToken(x).value <==> TokenKeeps(x, i)
  {
    if Includes(x, "-") {
      var bounds := RangeBounds(x);
      ExpandRangeKeeps(bounds.0, bounds.1, i);
    }
  }

  /** The kept indices of all tokens (js/main.js lines 15-26): every token's
      contribution, concatenated in order. The first token whose expansion throws ends the
      `map`, and then nothing is returned. */
  function ExpandAll(tokens: seq<string>): Result<seq<Number>, Error> {
    if |tokens| == 0 then Success([])
    else
      var head :- ExpandToken(tokens[0]);
      var tail :- ExpandAll(tokens[1..]);
      Success(head + tail)
  }

  /** Expanding the tokens succeeds exactly when every token expands. */
  lemma {:induction false} ExpandAllSucceeds(tokens: seq<string>)
    ensures ExpandAll(tokens).Success? <==>
      forall k :: 0 <= k < |tokens| ==> ExpandToken(tokens[k]).Success?
    decreases |tokens|
  {
    if |tokens| > 0 {
      var tail := tokens[1..];
      ExpandAllSucceeds(tail);
      assert forall k :: 0 <= k < |tail| ==> tail[k] == tokens[k + 1];
      if ExpandToken(tokens[0]).Success? && !ExpandAll(tokens).Success? {
        assert !ExpandAll(tail).Success?;
      }
    }
  }

  /** Some token of `tokens` names line `i`. */
  ghost predicate Keeps(tokens: seq<string>, i: int) {
    exists k :: 0 <= k < |tokens| && TokenKeeps(tokens[k], i)
  }

  /** Naming by a token list: the first token, or one of the rest. */
  lemma KeepsCons(tokens: seq<string>, i: int)
    requires 1 <= |tokens|
    ensures Keeps(tokens, i) <==> TokenKeeps(tokens[0], i) || Keeps(tokens[1..], i)
  {
    var tail := tokens[1..];
    if Keeps(tail, i) {
      var k :| 0 <= k < |tail| && TokenKeeps(tail[k], i);
      assert TokenKeeps(tokens[k + 1], i);
    }
    if Keeps(tokens, i) {
      var k :| 0 <= k < |tokens| && TokenKeeps(tokens[k], i);
      if k > 0 {
        assert TokenKeeps(tail[k - 1], i);
      }
    }
  }

  /** The kept list holds index `i` exactly when some token names line `i`. */
  lemma {:induction false} ExpandAllKeeps(tokens: seq<string>, i: int)
    requires ExpandAll(tokens).Success?
    ensures Some(i) in ExpandAll(tokens).value <==> Keeps(tokens, i)
    decreases |tokens|
  {
    if |tokens| > 0 {
      var tail := tokens[1..];
      assert ExpandAll(tokens).value == ExpandToken(tokens[0]).value + ExpandAll(tail).value;
      ExpandTokenKeeps(tokens[0], i);
      ExpandAllKeeps(tail, i);
      KeepsCons(tokens, i);
    }
  }

  /** A line wrapped in the dimming span. */
  function Dim(line: string): string {
    DimOpen + line + DimClose
  }

  /** The rebuilt lines (js/main.js lines 28-30): line `i` stays as it is when index `i`
      is among the kept indices, and is wrapped in the dimming span otherwise. */
  function DimLines(lines: seq<string>, kept: seq<Number>): (out: seq<string>)
    ensures |out| == |lines|
    ensures forall i :: 0 <= i < |lines| ==> (out[i] == lines[i] <==> Some(i) in kept)
    ensures forall i :: 0 <= i < |lines| && Some(i) !in kept ==> out[i] == Dim(lines[i])
  {
    seq(|lines|, i requires 0 <= i < |lines| => if Some(i) in kept then lines[i] else Dim(lines[i]))
  }

  /** The new inner markup of an element with class string `cls` and inner markup
      `content`; `Failure` when `new Array` throws. */
  function DimContent(cls: string, content: string): (r: Result<string, Error>)
    ensures FindDirective(cls).None? ==> r == Success(content)
  {
    match FindDirective(cls)
    case None => Success(content)
    case Some(d) => DimWith(Tokens(d.text), content)
  }

  /** The rebuild once the tokens are known: split the markup into lines, expand the
      tokens, dim the lines not kept and join them again. */
  function DimWith(tokens: seq<string>, content: string): Result<string, Error> {
    var lines := Split(content, "\n");
    var kept :- ExpandAll(tokens);
    Success(Join(DimLines(lines, kept), "\n"))
  }

  /** The tokens the pass reads from the leftmost directive. */
  function DirectiveTokens(cls: string): seq<string>
    requires FindDirective(cls).Some?
  {
    Tokens(FindDirective(cls).value.text)
  }

  lemma DimNoNewline(line: string)
    requires '\n' !in line
    ensures '\n' !in Dim(line)
  {
    assert '\n' !in DimOpen;
    assert '\n' !in DimClose;
  }

  /** The lines of an element's markup hold no newline. */
  lemma LinesFree(content: string)
    ensures forall k :: 0 <= k < |Split(content, "\n")| ==> '\n' !in Split(content, "\n")[k]
  {
    var lines := Split(content, "\n");
    SplitPiecesFree(content, "\n");
    forall k | 0 <= k < |lines|
      ensures '\n' !in lines[k]
    {
      ContainsChar(lines[k], '\n');
    }
  }

  /** Every token expands without a `RangeError`. */
  ghost predicate AllExpand(tokens: seq<string>) {
    forall k :: 0 <= k < |tokens| ==> ExpandToken(tokens[k]).Success?
  }

  /** The lines as the directive grammar describes them: each line some token names is
      kept, and every other line is wrapped in the dimming span. It is stated in terms of
      the tokens, not of the expanded index list the script builds. */
  ghost function Highlighted(tokens: seq<string>, lines: seq<string>): seq<string> {
    seq(|lines|, i requires 0 <= i < |lines| => if Keeps(tokens, i) then lines[i] else Dim(lines[i]))
  }

  /** A reference line is the input line exactly when some token names it, since the span
      always adds text. */
  lemma HighlightedKeeps(tokens: seq<string>, lines: seq<string>, i: int)
    requires 0 <= i < |lines|
    ensures Highlighted(tokens, lines)[i] == lines[i] <==> Keeps(tokens, i)
  {
    assert |Dim(lines[i])| > |lines[i]|;
  }

  /** The reference lines are not a fixed point: a dimmed line is wrapped again. */
  lemma HighlightedTwiceDiffers(tokens: seq<string>, lines: seq<string>, i: int)
    requires 0 <= i < |lines| && !Keeps(tokens, i)
    ensures Highlighted(tokens, Highlighted(tokens, lines))[i] == Dim(Dim(lines[i]))
    ensures Highlighted(tokens, Highlighted(tokens, lines)) != Highlighted(tokens, lines)
  {
    assert |Dim(Dim(lines[i]))| > |Dim(lines[i])|;
  }

  /** The rebuild fails exactly when some token fails to expand; otherwise its output is
      the reference lines joined with newlines. */
  lemma DimWithLines(tokens: seq<string>, content: string)
    ensures DimWith(tokens, content).Success? <==> AllExpand(tokens)
    ensures DimWith(tokens, content).Success? ==>
      DimWith(tokens, content).value == Join(Highlighted(tokens, Split(content, "\n")), "\n")
  {
    ExpandAllSucceeds(tokens);
    if ExpandAll(tokens).Success? {
      var kept := ExpandAll(tokens).value;
      var lines := Split(content, "\n");
      forall i | 0 <= i < |lines|
        ensures Some(i) in kept <==> Keeps(tokens, i)
      {
        ExpandAllKeeps(tokens, i);
      }
      assert DimLines(lines, kept) == Highlighted(tokens, lines);
    }
  }

  /** The output's lines are the reference lines: splitting the joined lines on newlines
      gives them back, since neither the markup's lines nor the span hold a newline. */
  lemma HighlightedSplit(tokens: seq<string>, content: string)
    ensures var lines := Highlighted(tokens, Split(content, "\n"));
      Split(Join(lines, "\n"), "\n") == lines
  {
    var lines := Split(content, "\n");
    var out := Highlighted(tokens, lines);
    LinesFree(content);
    forall k | 0 <= k < |out|
      ensures '\n' !in out[k]
    {
      DimNoNewline(lines[k]);
    }
    SplitJoin(out, '\n');
  }

  /** With a directive present, the pass fails exactly when some token is a range with an
      invalid array length; otherwise the new markup is the reference lines joined with
      newlines. */
  lemma DimContentLines(cls: string, content: string)
    requires FindDirective(cls).Some?
    ensures DimContent(cls, content).Success? <==> AllExpand(DirectiveTokens(cls))
    ensures DimContent(cls, content).Success? ==>
      DimContent(cls, content).value == Join(Highlighted(DirectiveTokens(cls), Split(content, "\n")), "\n")
  {
    DimWithLines(DirectiveTokens(cls), content);
  }

  /** `hl=[]` holds one empty token, which parses to `NaN` and names no line: the pass
      acts as if no line were kept, and dims every line. */
  lemma EmptyDirectiveDimsAll(cls: string, content: string)
    requires FindDirective(cls).Some? && FindDirective(cls).value.text == "hl=[]"
    ensures DimContent(cls, content) == Success(Join(DimLines(Split(content, "\n"), []), "\n"))
  {
    EmptyDirectiveTokens(cls);
    assert DimContent(cls, content) == DimWith([""], content);
    EmptyTokenNamesNothing();
    var lines := Split(content, "\n");
    assert DimLines(lines, [None]) == DimLines(lines, []);
  }

  /** The directive `hl=[]` yields the one token `""`. */
  lemma EmptyDirectiveTokens(cls: string)
    requires FindDirective(cls).Some? && FindDirective(cls).value.text == "hl=[]"
    ensures DirectiveTokens(cls) == [""]
  {
    var m := FindDirective(cls).value.text;
    assert |m| == 5;
    TokensOfDirective(m);
    assert m[4..|m| - 1] == [];
    EmptyTokenNamesNothing();
  }

  /** The empty string splits into one empty token, which expands to `NaN` alone. */
  lemma EmptyTokenNamesNothing()
    ensures Split("", " ") == [""]
    ensures ExpandAll([""]) == Success([None])
  {
    var nan: seq<Number> := [None];
    assert ExpandToken("") == Success(nan);
    assert [""][1..] == [];
    assert ExpandAll([]) == Success([]);
    assert nan + [] == nan;
  }

  /** The pass is not idempotent: when it succeeds, running it again over its own output
      succeeds too and yields the reference lines of the reference lines, so a kept line
      stays as it is and a dimmed line is wrapped in a second span. */
  lemma DimTwice(cls: string, content: string)
    requires FindDirective(cls).Some?
    ensures DimContent(cls, content).Success? ==>
      var tokens := DirectiveTokens(cls);
      DimContent(cls, DimContent(cls, content).value)
        == Success(Join(Highlighted(tokens, Highlighted(tokens, Split(content, "\n"))), "\n"))
  {
    if DimContent(cls, content).Success? {
      var tokens := DirectiveTokens(cls);
      var once := DimContent(cls, content).value;
      DimContentLines(cls, content);
      HighlightedSplit(tokens, content);
      DimContentLines(cls, once);
    }
  }
}
