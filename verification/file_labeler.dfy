/** The file labeler (js/main.js lines 38-50): a `code` element whose class string holds
    `file=<name>` gets a caption `👆 <name> 👆`, appended as the last child of the element's
    parent. The caption's text is modelled; creating, styling and appending the `sub` node
    is not. */
module FileLabeler {
  import opened Wrappers
  import opened JsString
  import opened JsNumber
  import opened Search

  /** The marker glyph, U+1F446 WHITE UP POINTING BACKHAND INDEX. */
  const Arrow := "\U{1F446}"

  /** The length of the longest run of non-whitespace characters in `s` from index `i`. */
  function NonSpaceRun(s: string, i: nat): (k: nat)
    requires i <= |s|
    ensures i + k <= |s|
    ensures forall j :: i <= j < i + k ==> !IsSpace(s[j])
    ensures i + k == |s| || IsSpace(s[i + k])
    decreases |s| - i
  {
    if i < |s| && !IsSpace(s[i]) then 1 + NonSpaceRun(s, i + 1) else 0
  }

  /** `s` holds at `p` the match of `file=\S*` of length `len`: `file=`, then the
      non-whitespace characters the greedy star takes, up to whitespace or the end. */
  ghost predicate DirectiveAt(s: string, p: nat, len: nat) {
    && 5 <= len && p + len <= |s|
    && OccursAt(s, "file=", p)
    && (forall j :: p + 5 <= j < p + len ==> !IsSpace(s[j]))
    && (p + len == |s| || IsSpace(s[p + len]))
  }

  /** The length of the match anchored at `p`, if there is one. */
  function MatchLength(s: string, p: nat): Option<nat> {
    if OccursAt(s, "file=", p) then Some(5 + NonSpaceRun(s, p + 5)) else None
  }

  /** The anchored matcher finds a match of length `len` exactly when `s` holds one at
      `p`. */
  lemma MatchLengthExact(s: string, p: nat, len: nat)
    ensures MatchLength(s, p) == Some(len) <==> DirectiveAt(s, p, len)
  {
  }

  /** The star may take nothing, so there is a match wherever `file=` occurs, and only
      there. */
  lemma MatchAtOccurrence(s: string, p: nat)
    ensures MatchLength(s, p).Some? <==> OccursAt(s, "file=", p)
  {
  }

  /** The first index at or after `from` where the anchored matcher succeeds: the scan a
      search without the sticky flag makes. It is the same scan as
      `LineDimmer.FirstMatch`, over this module's matcher. */
  function FirstMatch(s: string, from: nat): (r: Option<nat>)
    ensures r.Some? ==> from <= r.value <= |s| && MatchLength(s, r.value).Some?
    ensures forall q: nat :: from <= q <= |s| && (r.None? || q < r.value) ==> MatchLength(s, q).None?
    decreases |s| + 1 - from
  {
    if from > |s| then None
    else if MatchLength(s, from).Some? then Some(from)
    else FirstMatch(s, from + 1)
  }

  /** The leftmost match in the class string, if any (js/main.js lines 43-44): the
      script tests the pattern first and then takes the whole text of the first match. */
  function FindDirective(cls: string): (r: Option<Match>)
    ensures r.Some? ==>
      && DirectiveAt(cls, r.value.start, |r.value.text|)
      && r.value.text == cls[r.value.start..r.value.start + |r.value.text|]
  {
    match FirstMatch(cls, 0)
    case None => None
    case Some(p) =>
      var len := MatchLength(cls, p).value;
      MatchLengthExact(cls, p, len);
      Some(Match(p, cls[p..p + len]))
  }

  /** A directive is found exactly when `file=` occurs in the class string, and it starts
      at the first occurrence. */
  lemma FindDirectiveLeftmost(cls: string, p: nat)
    requires OccursAt(cls, "file=", p)
    ensures FindDirective(cls).Some? && FindDirective(cls).value.start <= p
    ensures OccursAt(cls, "file=", FindDirective(cls).value.start)
  {
    MatchAtOccurrence(cls, p);
    var d := FindDirective(cls).value;
    MatchLengthExact(cls, d.start, |d.text|);
  }

  lemma NoDirective(cls: string)
    requires !Contains(cls, "file=")
    ensures FindDirective(cls).None?
  {
  }

  /** The file name read from a match (js/main.js line 45): the last piece of the match
      split at `file=`. */
  function FileName(m: string): string {
    Last(Split(m, "file="))
  }

  /** The caption text (js/main.js line 48): the marker, a space, the name, a space and
      the marker again, with the name inserted unescaped. */
  function CaptionText(name: string): string {
    Arrow + " " + name + " " + Arrow
  }

  /** The text of the caption appended for class string `cls`, if it gets one. */
  function Caption(cls: string): (r: Option<string>) {
    match FindDirective(cls)
    case None => None
    case Some(d) => Some(CaptionText(FileName(d.text)))
  }

  /** Text that `file=\S*` matches: `file=`, then no whitespace. */
  ghost predicate IsMatchText(m: string) {
    OccursAt(m, "file=", 0) && forall j :: 5 <= j < |m| ==> !IsSpace(m[j])
  }

  /** The leftmost match is text of the pattern. */
  lemma MatchText(cls: string)
    requires FindDirective(cls).Some?
    ensures IsMatchText(FindDirective(cls).value.text)
  {
    var d := FindDirective(cls).value;
    var m := d.text;
    assert m[..5] == cls[d.start..d.start + 5];
    forall j | 5 <= j < |m|
      ensures !IsSpace(m[j])
    {
      assert m[j] == cls[d.start + j];
    }
  }

  /** The name is the text after the last `file=` inside a match: the match ends with
      `file=` followed by it, and it holds no whitespace and no further `file=`. When the
      match holds `file=` only once, the name is all of the rest. */
  lemma FileNameOfMatch(m: string)
    requires IsMatchText(m)
    ensures |FileName(m)| + 5 <= |m| && m[|m| - |FileName(m)| - 5..] == "file=" + FileName(m)
    ensures !Contains(FileName(m), "file=")
    ensures forall j :: 0 <= j < |FileName(m)| ==> !IsSpace(FileName(m)[j])
    ensures !Contains(m[5..], "file=") ==> FileName(m) == m[5..]
  {
    assert Contains(m, "file=");
    LastOfSplit(m, "file=");
    var name := FileName(m);
    var k := |m| - |name| - 5;
    assert name == m[k..][5..];
    forall j | 0 <= j < |name|
      ensures !IsSpace(name[j])
    {
      assert name[j] == m[k + 5 + j];
    }
    if !Contains(m[5..], "file=") {
      assert m == "file=" + m[5..];
      SplitAtStart("file=", m[5..]);
    }
  }

  /** The caption is the name between the two markers: reading the text between the
      first marker-and-space and the last space-and-marker gives back the name. */
  lemma CaptionFramesName(name: string)
    ensures var c := CaptionText(name);
      && |c| == |name| + 4
      && c[..2] == Arrow + " " && c[|c| - 2..] == " " + Arrow
      && c[2..|c| - 2] == name
  {
  }

  /** A caption is produced exactly when `file=` occurs in the class string. */
  lemma CaptionPresent(cls: string)
    ensures Caption(cls).Some? <==> Contains(cls, "file=")
  {
    if Contains(cls, "file=") {
      var p: nat :| OccursAt(cls, "file=", p);
      FindDirectiveLeftmost(cls, p);
    } else {
      NoDirective(cls);
    }
  }

  /** A class string that is exactly `file=` and a name without whitespace or `file=`
      is captioned with that name. */
  lemma CaptionOfDirective(name: string)
    requires forall j :: 0 <= j < |name| ==> !IsSpace(name[j])
    requires !Contains(name, "file=")
    ensures Caption("file=" + name) == Some(CaptionText(name))
  {
    var cls := "file=" + name;
    assert OccursAt(cls, "file=", 0);
    FindDirectiveLeftmost(cls, 0);
    var d := FindDirective(cls).value;
    assert forall j :: 5 <= j < |cls| ==> cls[j] == name[j - 5];
    assert d.text == cls;
    assert cls[5..] == name;
    MatchText(cls);
    FileNameOfMatch(cls);
  }

  /** Among other classes: a class string holding ` file=<name>`, where nothing before it
      holds `file=`, the name has no whitespace or `file=`, and whitespace or the end follows
      it, is captioned with that name. */
  lemma CaptionAmongClasses(pre: string, name: string, post: string)
    requires !Contains(pre, "file=")
    requires forall j :: 0 <= j < |name| ==> !IsSpace(name[j])
    requires !Contains(name, "file=")
    requires post == [] || IsSpace(post[0])
    ensures Caption(pre + " file=" + name + post) == Some(CaptionText(name))
  {
    DirectiveAmongClasses(pre, name, post);
    FileNameOfDirective(name);
  }

  /** The leftmost match in such a class string is `file=` and the name. */
  lemma DirectiveAmongClasses(pre: string, name: string, post: string)
    requires !Contains(pre, "file=")
    requires forall j :: 0 <= j < |name| ==> !IsSpace(name[j])
    requires post == [] || IsSpace(post[0])
    ensures FindDirective(pre + " file=" + name + post).Some?
    ensures FindDirective(pre + " file=" + name + post).value.text == "file=" + name
  {
    var cls := pre + " file=" + name + post;
    assert cls[..|pre|] == pre;
    assert cls[|pre| + 1..|pre| + 6] == "file=";
    assert cls[|pre| + 6..] == name + post;
    DirectiveAfterPrefix(cls, pre, name, post);
  }

  /** The same, stated over the pieces of the class string rather than its
      concatenation. */
  lemma DirectiveAfterPrefix(cls: string, pre: string, name: string, post: string)
    requires !Contains(pre, "file=")
    requires forall j :: 0 <= j < |name| ==> !IsSpace(name[j])
    requires post == [] || IsSpace(post[0])
    requires |pre| + 6 <= |cls| && cls[..|pre|] == pre && cls[|pre|] == ' '
    requires cls[|pre| + 1..|pre| + 6] == "file=" && cls[|pre| + 6..] == name + post
    ensures FindDirective(cls).Some? && FindDirective(cls).value.text == "file=" + name
  {
    var p := |pre| + 1;
    FindDirectiveLeftmost(cls, p);
    var d := FindDirective(cls).value;
    DirectiveStartsAfter(pre, cls, d.start);
    MatchLengthExact(cls, p, |d.text|);
    DirectiveEndsAfterName(cls, p, name, post, |d.text|);
  }

  /** The name read from the match `file=<name>` is the name itself. */
  lemma FileNameOfDirective(name: string)
    requires forall j :: 0 <= j < |name| ==> !IsSpace(name[j])
    requires !Contains(name, "file=")
    ensures FileName("file=" + name) == name
  {
    var m := "file=" + name;
    assert m[..5] == "file=";
    assert forall j :: 5 <= j < |m| ==> m[j] == name[j - 5];
    assert m[5..] == name;
    FileNameOfMatch(m);
  }

  /** No occurrence of `file=` starts before the space that ends `pre`. */
  lemma DirectiveStartsAfter(pre: string, cls: string, q: nat)
    requires !Contains(pre, "file=")
    requires |pre| < |cls| && cls[..|pre|] == pre && cls[|pre|] == ' '
    requires q <= |pre| + 1 && OccursAt(cls, "file=", q)
    ensures q == |pre| + 1
  {
    if q + 5 <= |pre| {
      assert pre[q..q + 5] == cls[q..q + 5];
      assert OccursAt(pre, "file=", q);
      assert false;
    } else if q <= |pre| {
      assert false;
    }
  }

  /** The match at `p` of `file=<name><post>` ends with the name. */
  lemma DirectiveEndsAfterName(cls: string, p: nat, name: string, post: string, len: nat)
    requires p + 5 <= |cls| && cls[p + 5..] == name + post
    requires forall j :: 0 <= j < |name| ==> !IsSpace(name[j])
    requires post == [] || IsSpace(post[0])
    requires DirectiveAt(cls, p, len)
    ensures len == 5 + |name| && cls[p..p + len] == "file=" + name
  {
    assert p + 5 + |name| < |cls| ==> cls[p + 5 + |name|] == post[0];
    if len < 5 + |name| {
      assert false;
    } else if len > 5 + |name| {
      assert false;
    }
    assert cls[p..p + 5] == "file=";
    assert cls[p + 5..p + len] == name;
    assert cls[p..p + len] == cls[p..p + 5] + cls[p + 5..p + len];
  }
}
