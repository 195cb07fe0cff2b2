/**
 * `render_content`: card text is scanned left to right for blocks
 * `[TAG]body[/TAG]` or `[TAG=param]body[/TAG]`, the way `re.finditer` runs the
 * pattern of renderer.py:36 (TAG is one or more upper-case ASCII letters, param
 * one or more letters, digits, `_` or `-`, the body is the shortest text up to
 * the first closer carrying the SAME tag, newlines included). What the source
 * prints to the console is modelled as a sequence of output items.
 */
module Renderer {
  import opened Wrappers
  import opened Text
  import opened TableParser

  datatype Severity = Error | Warning

  /** One piece of output, in the order the source prints it. */
  datatype Item =
    | Markdown(text: string)                                 // a stripped gap of plain text
    | TableView(headers: seq<string>, rows: seq<seq<string>>)
    | CodeView(language: string, code: string)
    | Diagnostic(severity: Severity, raw: string)            // the whole matched block, verbatim

  /** A block found by the scanner: `content[start..end]` is the whole match,
      `content[bodyStart..bodyEnd]` the (unstripped) body. */
  datatype Match = Match(start: nat, bodyStart: nat, bodyEnd: nat, end: nat, tag: string, param: Option<string>)

  predicate IsTagChar(c: char) {
    'A' <= c <= 'Z'
  }

  predicate IsParamChar(c: char) {
    'a' <= c <= 'z' || 'A' <= c <= 'Z' || '0' <= c <= '9' || c == '_' || c == '-'
  }

  /** Every character of `x` is in the class `cls`. */
  predicate All(x: string, cls: char -> bool)
    decreases |x|
  {
    x == [] || (cls(x[0]) && All(x[1..], cls))
  }

  function OpenerText(tag: string, param: Option<string>): string {
    "[" + tag + (if param.Some? then "=" + param.value else "") + "]"
  }

  function CloserText(tag: string): string {
    "[/" + tag + "]"
  }

  /** `pat` occurs in `s` at position `k`, compared character by character. */
  predicate OccursAt(s: string, pat: string, k: nat)
    decreases |pat|
  {
    k + |pat| <= |s| && (pat == [] || (s[k] == pat[0] && OccursAt(s, pat[1..], k + 1)))
  }

  /** An occurrence of `a + b` is an occurrence of `a` followed by one of `b`. */
  lemma {:induction false} OccursAtAppend(s: string, a: string, b: string, k: nat)
    ensures OccursAt(s, a + b, k) <==> OccursAt(s, a, k) && OccursAt(s, b, k + |a|)
    decreases |a|
  {
    if a != [] {
      assert (a + b)[0] == a[0] && (a + b)[1..] == a[1..] + b;
      OccursAtAppend(s, a[1..], b, k + 1);
    } else {
      assert a + b == b;
    }
  }

  /** A one-character pattern occurs where that character is. */
  lemma OccursAtChar(s: string, c: char, k: nat)
    ensures OccursAt(s, [c], k) <==> k < |s| && s[k] == c
  {
    assert [c][1..] == [];
  }

  /** `OccursAt` is the slice comparison `s[k..k + |pat|] == pat`. */
  lemma {:induction false} OccursAtSlice(s: string, pat: string, k: nat)
    ensures OccursAt(s, pat, k) <==> k + |pat| <= |s| && s[k..k + |pat|] == pat
    decreases |pat|
  {
    if pat != [] {
      OccursAtSlice(s, pat[1..], k + 1);
      if k + |pat| <= |s| {
        assert s[k..k + |pat|] == [s[k]] + s[k + 1..k + |pat|];
        assert pat == [pat[0]] + pat[1..];
      }
    }
  }

  /** The positions of a match are ordered and lie inside `s`. */
  predicate InBounds(s: string, m: Match) {
    m.start < m.bodyStart <= m.bodyEnd < m.end <= |s|
  }

  /** What the pattern accepts at `m.start`: an opener, a body holding no closer
      of the same tag, and that closer. */
  predicate WellFormed(s: string, m: Match) {
    && InBounds(s, m)
    && |m.tag| > 0 && All(m.tag, IsTagChar)
    && (m.param.Some? ==> |m.param.value| > 0 && All(m.param.value, IsParamChar))
    && OccursAt(s, OpenerText(m.tag, m.param), m.start)
    && m.bodyStart == m.start + |OpenerText(m.tag, m.param)|
    && OccursAt(s, CloserText(m.tag), m.bodyEnd)
    && m.end == m.bodyEnd + |CloserText(m.tag)|
    && forall k :: m.bodyStart <= k < m.bodyEnd ==> !OccursAt(s, CloserText(m.tag), k)
  }

  /** The end of the longest run of `cls` characters from `i` (`[A-Z]+` and
      `[a-zA-Z0-9_\-]+` are greedy). */
  function RunEnd(s: string, i: nat, cls: char -> bool): (j: nat)
    requires i <= |s|
    ensures i <= j <= |s|
    decreases |s| - i
  {
    if i < |s| && cls(s[i]) then RunEnd(s, i + 1, cls) else i
  }

  /** `RunEnd` stops at the first character outside the class, and not before. */
  lemma {:induction false} RunEndIsMaximal(s: string, i: nat, cls: char -> bool)
    requires i <= |s|
    ensures All(s[i..RunEnd(s, i, cls)], cls)
    ensures RunEnd(s, i, cls) == |s| || !cls(s[RunEnd(s, i, cls)])
    decreases |s| - i
  {
    if i < |s| && cls(s[i]) {
      RunEndIsMaximal(s, i + 1, cls);
      var j := RunEnd(s, i, cls);
      assert s[i..j][0] == s[i] && s[i..j][1..] == s[i + 1..j];
    }
  }

  /** A run `x` of class characters at `i`, followed by a character outside the
      class or by the end, is the run `RunEnd` finds. */
  lemma {:induction false} RunEndOver(s: string, i: nat, x: string, cls: char -> bool)
    requires OccursAt(s, x, i) && All(x, cls)
    requires i + |x| == |s| || !cls(s[i + |x|])
    ensures RunEnd(s, i, cls) == i + |x|
    decreases |x|
  {
    if x != [] {
      RunEndOver(s, i + 1, x[1..], cls);
    }
  }

  /** The first occurrence of `pat` at or after `i` (what the lazy `.*?` settles on). */
  function FindFrom(s: string, pat: string, i: nat): (r: Option<nat>)
    requires i <= |s|
    ensures r.Some? ==> i <= r.value && r.value + |pat| <= |s|
    decreases |s| - i
  {
    if OccursAt(s, pat, i) then Some(i)
    else if i == |s| then None
    else FindFrom(s, pat, i + 1)
  }

  /** `FindFrom` finds an occurrence, the first one, and misses none. */
  lemma {:induction false} FindFromIsFirst(s: string, pat: string, i: nat)
    requires i <= |s|
    ensures var r := FindFrom(s, pat, i);
            && (r.Some? ==> OccursAt(s, pat, r.value) && forall k :: i <= k < r.value ==> !OccursAt(s, pat, k))
            && (r.None? ==> forall k :: i <= k <= |s| ==> !OccursAt(s, pat, k))
    decreases |s| - i
  {
    if !OccursAt(s, pat, i) && i < |s| {
      FindFromIsFirst(s, pat, i + 1);
    }
  }

  /** The block whose opener ends just before `bodyStart`, if its closer occurs. */
  function Closed(s: string, start: nat, bodyStart: nat, tag: string, param: Option<string>): (r: Option<Match>)
    requires start < bodyStart <= |s|
    ensures r.Some? ==> InBounds(s, r.value) && r.value.start == start
  {
    match FindFrom(s, CloserText(tag), bodyStart)
    case None => None
    case Some(k) => Some(Match(start, bodyStart, k, k + |CloserText(tag)|, tag, param))
  }

  /** The match of the block pattern that starts exactly at `p`, if any. */
  function MatchAt(s: string, p: nat): (r: Option<Match>)
    requires p <= |s|
    ensures r.Some? ==> r.value.start == p && InBounds(s, r.value)
  {
    if p < |s| && s[p] == '[' then AfterTag(s, p, RunEnd(s, p + 1, IsTagChar)) else None
  }

  /** The rest of the pattern once `[` and the tag `s[p + 1..t]` are read: `]`, or `=` and a parameter. */
  function AfterTag(s: string, p: nat, t: nat): (r: Option<Match>)
    requires p < t <= |s|
    ensures r.Some? ==> r.value.start == p && InBounds(s, r.value)
  {
    if t == p + 1 || t == |s| then None
    else if s[t] == ']' then Closed(s, p, t + 1, s[p + 1..t], None)
    else if s[t] == '=' then AfterParam(s, p, t, RunEnd(s, t + 1, IsParamChar))
    else None
  }

  /** The rest of the pattern once `=` and the parameter `s[t + 1..q]` are read: `]`. */
  function AfterParam(s: string, p: nat, t: nat, q: nat): (r: Option<Match>)
    requires p < t < q <= |s|
    ensures r.Some? ==> r.value.start == p && InBounds(s, r.value)
  {
    if q == t + 1 || q == |s| || s[q] != ']' then None
    else Closed(s, p, q + 1, s[p + 1..t], Some(s[t + 1..q]))
  }

  /** Every block `MatchAt` returns is one the pattern accepts: opener, body
      without a same-tag closer, then the closer with the opener's tag. */
  lemma MatchAtSound(s: string, p: nat)
    requires p <= |s| && MatchAt(s, p).Some?
    ensures WellFormed(s, MatchAt(s, p).value)
  {
    var m := MatchAt(s, p).value;
    var t := RunEnd(s, p + 1, IsTagChar);
    RunEndIsMaximal(s, p + 1, IsTagChar);
    AfterTagSound(s, p, t, m);
  }

  /** What `AfterTag` returning a block says about the text after the tag. */
  lemma AfterTagCases(s: string, p: nat, t: nat, m: Match)
    requires p < t <= |s| && AfterTag(s, p, t) == Some(m)
    ensures p + 1 < t < |s|
    ensures s[t] == ']' ==> Closed(s, p, t + 1, s[p + 1..t], None) == Some(m)
    ensures s[t] != ']' ==> s[t] == '=' && AfterParam(s, p, t, RunEnd(s, t + 1, IsParamChar)) == Some(m)
  {
  }

  /** What `AfterParam` returning a block says about the text after the parameter. */
  lemma AfterParamCases(s: string, p: nat, t: nat, q: nat, m: Match)
    requires p < t < q <= |s| && AfterParam(s, p, t, q) == Some(m)
    ensures t + 1 < q < |s| && s[q] == ']'
    ensures Closed(s, p, q + 1, s[p + 1..t], Some(s[t + 1..q])) == Some(m)
  {
  }

  lemma AfterTagSound(s: string, p: nat, t: nat, m: Match)
    requires p < t <= |s| && s[p] == '[' && All(s[p + 1..t], IsTagChar)
    requires AfterTag(s, p, t) == Some(m)
    ensures WellFormed(s, m)
  {
    AfterTagCases(s, p, t, m);
    if s[t] == ']' {
      OpenerSlice(s, p, t, t);
      ClosedWellFormed(s, p, t + 1, s[p + 1..t], None, m);
    } else {
      var q := RunEnd(s, t + 1, IsParamChar);
      RunEndIsMaximal(s, t + 1, IsParamChar);
      AfterParamSound(s, p, t, q, m);
    }
  }

  lemma AfterParamSound(s: string, p: nat, t: nat, q: nat, m: Match)
    requires p + 1 < t < q <= |s| && s[p] == '[' && s[t] == '='
    requires All(s[p + 1..t], IsTagChar) && All(s[t + 1..q], IsParamChar)
    requires AfterParam(s, p, t, q) == Some(m)
    ensures WellFormed(s, m)
  {
    AfterParamCases(s, p, t, q, m);
    OpenerSlice(s, p, t, q);
    ClosedWellFormed(s, p, q + 1, s[p + 1..t], Some(s[t + 1..q]), m);
  }

  /** A block `Closed` finds after a well-formed opener is well formed. */
  lemma ClosedWellFormed(s: string, start: nat, bodyStart: nat, tag: string, param: Option<string>, m: Match)
    requires start < bodyStart <= |s| && Closed(s, start, bodyStart, tag, param) == Some(m)
    requires |tag| > 0 && All(tag, IsTagChar)
    requires param.Some? ==> |param.value| > 0 && All(param.value, IsParamChar)
    requires OccursAt(s, OpenerText(tag, param), start) && bodyStart == start + |OpenerText(tag, param)|
    ensures WellFormed(s, m)
  {
    FindFromIsFirst(s, CloserText(tag), bodyStart);
  }

  /** `[` at `p` followed by the text up to `t`. */
  lemma BracketAndTag(s: string, p: nat, t: nat)
    requires p < t <= |s| && s[p] == '['
    ensures OccursAt(s, "[" + s[p + 1..t], p)
  {
    OccursAtSlice(s, s[p + 1..t], p + 1);
    OccursAtChar(s, '[', p);
    OccursAtAppend(s, "[", s[p + 1..t], p);
  }

  /** The text of an opener, read back from `s`: `[` at `p`, the tag up to `t`,
      and either `]` at `t` (when `q == t`) or `=`, the parameter up to `q`, and `]`. */
  lemma OpenerSlice(s: string, p: nat, t: nat, q: nat)
    requires p < t <= q < |s| && s[p] == '[' && s[q] == ']'
    requires q > t ==> s[t] == '='
    ensures var o := OpenerText(s[p + 1..t], if q == t then None else Some(s[t + 1..q]));
            OccursAt(s, o, p) && |o| == q + 1 - p
  {
    BracketAndTag(s, p, t);
    if q == t {
      OpenerSliceNoParam(s, p, t);
    } else {
      OpenerSliceParam(s, p, t, q);
    }
  }

  lemma OpenerSliceNoParam(s: string, p: nat, t: nat)
    requires p < t < |s| && s[t] == ']' && OccursAt(s, "[" + s[p + 1..t], p)
    ensures OccursAt(s, OpenerText(s[p + 1..t], None), p)
  {
    var tag := s[p + 1..t];
    OccursAtChar(s, ']', t);
    OccursAtAppend(s, "[" + tag, "]", p);
    assert OpenerText(tag, None) == "[" + tag + "]";
  }

  lemma OpenerSliceParam(s: string, p: nat, t: nat, q: nat)
    requires p < t < q < |s| && s[t] == '=' && s[q] == ']' && OccursAt(s, "[" + s[p + 1..t], p)
    ensures OccursAt(s, OpenerText(s[p + 1..t], Some(s[t + 1..q])), p)
  {
    var tag, v := s[p + 1..t], s[t + 1..q];
    OccursAtSlice(s, v, t + 1);
    OccursAtChar(s, '=', t);
    OccursAtAppend(s, "=", v, t);
    OccursAtAppend(s, "[" + tag, "=" + v, p);
    OccursAtChar(s, ']', q);
    OccursAtAppend(s, "[" + tag + ("=" + v), "]", p);
    assert OpenerText(tag, Some(v)) == "[" + tag + ("=" + v) + "]";
  }

  /** Every block the pattern accepts at a position is the one `MatchAt` returns:
      the tag and the parameter cannot be cut short, and the body is the shortest. */
  lemma MatchAtComplete(s: string, m: Match)
    requires WellFormed(s, m)
    ensures MatchAt(s, m.start) == Some(m)
  {
    var p, n := m.start, |m.tag|;
    OpenerParts(s, p, m.tag, m.param);
    OccursAtSlice(s, m.tag, p + 1);
    ClosedAtBody(s, m);
    RunEndOver(s, p + 1, m.tag, IsTagChar);
    if m.param.None? {
      MatchAtNoParam(s, p + 1 + n, m);
    } else {
      var v := m.param.value;
      RunEndOver(s, p + 2 + n, v, IsParamChar);
      OccursAtSlice(s, v, p + 2 + n);
      MatchAtWithParam(s, p + 1 + n, p + 2 + n + |v|, m);
    }
  }

  /** `MatchAt` reassembled from the pieces of a block without a parameter. */
  lemma MatchAtNoParam(s: string, t: nat, m: Match)
    requires m.start < t < |s| && s[m.start] == '[' && s[t] == ']'
    requires RunEnd(s, m.start + 1, IsTagChar) == t && s[m.start + 1..t] == m.tag && t > m.start + 1
    requires m.param.None? && m.bodyStart == t + 1 && Closed(s, m.start, m.bodyStart, m.tag, m.param) == Some(m)
    ensures MatchAt(s, m.start) == Some(m)
  {
    var p := m.start;
    assert Closed(s, p, t + 1, s[p + 1..t], None) == Some(m);
    AfterTagClosed(s, p, t, m);
  }

  lemma AfterTagClosed(s: string, p: nat, t: nat, m: Match)
    requires p + 1 < t < |s| && s[t] == ']' && Closed(s, p, t + 1, s[p + 1..t], None) == Some(m)
    ensures AfterTag(s, p, t) == Some(m)
  {
  }

  /** `MatchAt` reassembled from the pieces of a block with a parameter. */
  lemma MatchAtWithParam(s: string, t: nat, q: nat, m: Match)
    requires m.start + 1 < t < q < |s| && s[m.start] == '[' && s[t] == '=' && s[q] == ']'
    requires RunEnd(s, m.start + 1, IsTagChar) == t && s[m.start + 1..t] == m.tag
    requires RunEnd(s, t + 1, IsParamChar) == q && t + 1 < q && m.param == Some(s[t + 1..q])
    requires m.bodyStart == q + 1 && Closed(s, m.start, m.bodyStart, m.tag, m.param) == Some(m)
    ensures MatchAt(s, m.start) == Some(m)
  {
    AfterParamAt(s, m.start, t, q, m);
    AfterTagAt(s, m.start, t, m);
  }

  lemma AfterTagAt(s: string, p: nat, t: nat, m: Match)
    requires p + 1 < t < |s| && s[t] == '=' && AfterParam(s, p, t, RunEnd(s, t + 1, IsParamChar)) == Some(m)
    ensures AfterTag(s, p, t) == Some(m)
  {
  }

  lemma AfterParamAt(s: string, p: nat, t: nat, q: nat, m: Match)
    requires p + 1 < t && t + 1 < q < |s| && s[q] == ']' && s[p + 1..t] == m.tag && m.param == Some(s[t + 1..q])
    requires m.bodyStart == q + 1 && Closed(s, p, m.bodyStart, m.tag, m.param) == Some(m)
    ensures AfterParam(s, p, t, q) == Some(m)
  {
  }

  /** The closer a well-formed block ends with is the first one after its opener. */
  lemma ClosedAtBody(s: string, m: Match)
    requires WellFormed(s, m)
    ensures Closed(s, m.start, m.bodyStart, m.tag, m.param) == Some(m)
  {
    var c := CloserText(m.tag);
    FindFromIsFirst(s, c, m.bodyStart);
    assert FindFrom(s, c, m.bodyStart) == Some(m.bodyEnd);
  }

  /** The pieces of an opener found in `s` at `p`: `[`, the tag, then `]`, or
      `=`, the parameter and `]`. */
  lemma OpenerParts(s: string, p: nat, tag: string, param: Option<string>)
    requires OccursAt(s, OpenerText(tag, param), p)
    ensures var n := |tag|;
            && p + 1 + n < |s| && s[p] == '[' && OccursAt(s, tag, p + 1)
            && (param.None? ==> s[p + 1 + n] == ']' && |OpenerText(tag, param)| == n + 2)
            && (param.Some? ==>
                  && s[p + 1 + n] == '='
                  && OccursAt(s, param.value, p + 2 + n)
                  && p + 2 + n + |param.value| < |s|
                  && s[p + 2 + n + |param.value|] == ']'
                  && |OpenerText(tag, param)| == n + 3 + |param.value|)
  {
    var n := |tag|;
    if param.None? {
      assert OpenerText(tag, param) == "[" + tag + "]";
      OccursAtAppend(s, "[" + tag, "]", p);
      OccursAtChar(s, ']', p + 1 + n);
    } else {
      var v := param.value;
      assert OpenerText(tag, param) == "[" + tag + ("=" + v) + "]";
      OccursAtAppend(s, "[" + tag + ("=" + v), "]", p);
      OccursAtAppend(s, "[" + tag, "=" + v, p);
      OccursAtAppend(s, "=", v, p + 1 + n);
      OccursAtChar(s, '=', p + 1 + n);
      OccursAtChar(s, ']', p + 2 + n + |v|);
    }
    OccursAtAppend(s, "[", tag, p);
    OccursAtChar(s, '[', p);
  }

  /** Matches in order, each inside `s`, none starting before `pos` or before
      the end of the previous one. */
  predicate Chained(s: string, pos: nat, ms: seq<Match>) {
    && (forall k :: 0 <= k < |ms| ==> InBounds(s, ms[k]))
    && (ms != [] ==> pos <= ms[0].start)
    && (forall k :: 0 < k < |ms| ==> ms[k - 1].end <= ms[k].start)
  }

  /** A matcher whose matches start where asked and lie inside `s`. */
  ghost predicate ValidMatcher(s: string, at: nat -> Option<Match>) {
    forall q: nat :: q <= |s| && at(q).Some? ==> at(q).value.start == q && InBounds(s, at(q).value)
  }

  /** The block pattern of renderer.py:36 as a matcher over `s`: the match that
      starts at each position, if any. */
  function Matcher(s: string): (at: nat -> Option<Match>)
    ensures ValidMatcher(s, at)
    ensures forall q: nat :: q <= |s| ==> at(q) == MatchAt(s, q)
  {
    (q: nat) => if q <= |s| then MatchAt(s, q) else None
  }

  /** `finditer` with matcher `at` from `pos`: take the match at the first
      position where there is one, then go on from that match's end; where no
      match starts, move on by one character. */
  function Scan(s: string, at: nat -> Option<Match>, pos: nat): (ms: seq<Match>)
    requires pos <= |s| && ValidMatcher(s, at)
    decreases |s| - pos
  {
    if pos == |s| then []
    else match at(pos)
      case Some(m) => [m] + Scan(s, at, m.end)
      case None => Scan(s, at, pos + 1)
  }

  /** The scan's matches lie inside `s`, in order, without overlapping. */
  lemma {:induction false} ScanChained(s: string, at: nat -> Option<Match>, pos: nat)
    requires pos <= |s| && ValidMatcher(s, at)
    ensures Chained(s, pos, Scan(s, at, pos))
    decreases |s| - pos
  {
    if pos < |s| {
      match at(pos)
      case Some(m) =>
        ScanChained(s, at, m.end);
        var rest := Scan(s, at, m.end);
        var ms := [m] + rest;
        assert forall k :: 0 < k < |ms| ==> ms[k] == rest[k - 1];
      case None =>
        ScanChained(s, at, pos + 1);
    }
  }

  /** `block_pattern.finditer(content)`: blocks inside `s`, in order, not overlapping. */
  function FindIter(s: string): (ms: seq<Match>)
    ensures Chained(s, 0, ms)
  {
    ScanChained(s, Matcher(s), 0);
    Scan(s, Matcher(s), 0)
  }

  ghost predicate NoMatchBetween(at: nat -> Option<Match>, lo: nat, hi: nat) {
    forall q :: lo <= q < hi ==> at(q).None?
  }

  /** The leftmost, non-overlapping reading of `s[pos..]` under matcher `at`:
      every match is the one `at` gives at its start, and no match starts in a gap. */
  ghost predicate IsLeftmostScan(s: string, at: nat -> Option<Match>, pos: nat, ms: seq<Match>)
    requires pos <= |s| && ValidMatcher(s, at)
    decreases |ms|
  {
    if ms == [] then NoMatchBetween(at, pos, |s|)
    else
      && pos <= ms[0].start <= |s|
      && at(ms[0].start) == Some(ms[0])
      && NoMatchBetween(at, pos, ms[0].start)
      && IsLeftmostScan(s, at, ms[0].end, ms[1..])
  }

  /** The scan finds the leftmost non-overlapping matches... */
  lemma {:induction false} ScanIsLeftmost(s: string, at: nat -> Option<Match>, pos: nat)
    requires pos <= |s| && ValidMatcher(s, at)
    ensures IsLeftmostScan(s, at, pos, Scan(s, at, pos))
    decreases |s| - pos
  {
    if pos < |s| {
      match at(pos)
      case Some(m) =>
        ScanIsLeftmost(s, at, m.end);
        assert ([m] + Scan(s, at, m.end))[1..] == Scan(s, at, m.end);
      case None =>
        ScanIsLeftmost(s, at, pos + 1);
    }
  }

  /** ...and there is only one such reading. */
  lemma {:induction false} LeftmostScanUnique(s: string, at: nat -> Option<Match>, pos: nat, ms1: seq<Match>, ms2: seq<Match>)
    requires pos <= |s| && ValidMatcher(s, at)
    requires IsLeftmostScan(s, at, pos, ms1) && IsLeftmostScan(s, at, pos, ms2)
    ensures ms1 == ms2
    decreases |ms1|
  {
    if ms1 != [] && ms2 != [] {
      var a, b := ms1[0], ms2[0];
      LeftmostScanUnique(s, at, a.end, ms1[1..], ms2[1..]);
      assert ms1 == [a] + ms1[1..] && ms2 == [b] + ms2[1..];
    }
  }

  /** `finditer` over the block pattern yields exactly the leftmost
      non-overlapping blocks: any sequence of matches with that property is it. */
  lemma FindIterIsLeftmost(s: string, ms: seq<Match>)
    ensures IsLeftmostScan(s, Matcher(s), 0, FindIter(s))
    ensures IsLeftmostScan(s, Matcher(s), 0, ms) ==> ms == FindIter(s)
  {
    ScanIsLeftmost(s, Matcher(s), 0);
    if IsLeftmostScan(s, Matcher(s), 0, ms) {
      LeftmostScanUnique(s, Matcher(s), 0, ms, FindIter(s));
    }
  }

  /** A gap of plain text: printed (as Markdown) only if something is left after stripping. */
  function Gap(text: string): seq<Item> {
    var t := Trim(text);
    if t == [] then [] else [Markdown(t)]
  }

  /** A gap prints nothing exactly when it is blank, and otherwise its stripped text. */
  lemma GapShape(text: string)
    ensures |Gap(text)| <= 1 && (Gap(text) == [] <==> IsBlank(text))
    ensures forall k :: 0 <= k < |Gap(text)| ==> Gap(text)[k] == Markdown(Trim(text)) && Stripped(Gap(text)[k].text)
  {
    BlankIffTrimEmpty(text);
    TrimIdempotent(text);
  }

  /** A non-empty text that `strip()` leaves as it is. */
  predicate Stripped(text: string) {
    text != [] && Trim(text) == text
  }

  /** What one block renders to (renderer.py:47-70). */
  function BlockItem(s: string, m: Match): (it: Item)
    requires InBounds(s, m)
    ensures !it.Markdown?
  {
    var raw := s[m.start..m.end];
    var body := Trim(s[m.bodyStart..m.bodyEnd]);
    if m.tag == "TABLE" then
      match TableOf(body)
      case Some(t) => if |t.headers| > 0 then TableView(t.headers, t.rows) else Diagnostic(Error, raw)
      case None => Diagnostic(Error, raw)
    else if m.tag == "CODE" then
      CodeView(if m.param.Some? then m.param.value else "text", body)
    else
      Diagnostic(Warning, raw)
  }

  /** A `TABLE` block renders as a table exactly when its stripped body has at
      least two non-blank lines, and then as the table the parser builds; a
      failed table and an unknown tag carry the whole block; `CODE` carries the
      stripped body and the parameter, or `text` when there is none. */
  lemma BlockItemCases(s: string, m: Match)
    requires InBounds(s, m)
    ensures var it, raw, body := BlockItem(s, m), s[m.start..m.end], Trim(s[m.bodyStart..m.bodyEnd]);
            && (m.tag == "TABLE" ==>
                  && (it.TableView? <==> |NonBlankLines(body)| >= 2)
                  && (it.TableView? ==> Some(Table(it.headers, it.rows)) == TableOf(body))
                  && (!it.TableView? ==> it == Diagnostic(Error, raw)))
            && (m.tag == "CODE" ==> it == CodeView(if m.param.Some? then m.param.value else "text", body))
            && (m.tag != "TABLE" && m.tag != "CODE" ==> it == Diagnostic(Warning, raw))
  {
    TableOfShape(Trim(s[m.bodyStart..m.bodyEnd]));
  }

  /** The text a diagnostic carries is the block as written: opener, raw body, closer. */
  lemma RawIsWholeBlock(s: string, m: Match)
    requires WellFormed(s, m)
    ensures s[m.start..m.end] == OpenerText(m.tag, m.param) + s[m.bodyStart..m.bodyEnd] + CloserText(m.tag)
  {
    OccursAtSlice(s, OpenerText(m.tag, m.param), m.start);
    OccursAtSlice(s, CloserText(m.tag), m.bodyEnd);
    assert s[m.start..m.end] == s[m.start..m.bodyStart] + s[m.bodyStart..m.bodyEnd] + s[m.bodyEnd..m.end];
  }

  /** `BlockItem` for the blocks of `s`, as a function value (total: a value
      outside `s` is never asked for). */
  function Itemizer(s: string): (f: Match -> Item)
    ensures forall m :: InBounds(s, m) ==> f(m) == BlockItem(s, m)
  {
    (m: Match) => if InBounds(s, m) then BlockItem(s, m) else Diagnostic(Warning, [])
  }

  /** The item of each match, in order. */
  function BlockItems(f: Match -> Item, ms: seq<Match>): (r: seq<Item>)
    ensures |r| == |ms|
    decreases |ms|
  {
    if ms == [] then [] else [f(ms[0])] + BlockItems(f, ms[1..])
  }

  /** One item per match, each the one `f` gives for it. */
  lemma {:induction false} BlockItemsAt(f: Match -> Item, ms: seq<Match>)
    ensures forall k :: 0 <= k < |ms| ==> BlockItems(f, ms)[k] == f(ms[k])
    decreases |ms|
  {
    if ms != [] {
      BlockItemsAt(f, ms[1..]);
    }
  }

  /** The raw plain-text gaps around the matches: one before each match and one after the last. */
  function Gaps(s: string, ms: seq<Match>, lastEnd: nat): (gaps: seq<string>)
    requires lastEnd <= |s| && Chained(s, lastEnd, ms)
    ensures |gaps| == |ms| + 1
    decreases |ms|
  {
    if ms == [] then [s[lastEnd..]]
    else [s[lastEnd..ms[0].start]] + Gaps(s, ms[1..], ms[0].end)
  }

  /** Gap `k` is exactly the text from the end of match `k - 1` (or the
      cursor) to the start of match `k` (or the end of the text), so the gaps
      and the matches together cover the text with nothing left out. */
  lemma {:induction false} GapsBetween(s: string, ms: seq<Match>, lastEnd: nat)
    requires lastEnd <= |s| && Chained(s, lastEnd, ms)
    ensures forall k :: 0 <= k <= |ms| ==>
              Gaps(s, ms, lastEnd)[k]
              == s[(if k == 0 then lastEnd else ms[k - 1].end)..(if k == |ms| then |s| else ms[k].start)]
    decreases |ms|
  {
    if ms == [] {
      assert Gaps(s, ms, lastEnd) == [s[lastEnd..]];
    } else {
      var rest := ms[1..];
      assert Chained(s, ms[0].end, rest);
      GapsBetween(s, rest, ms[0].end);
      assert Gaps(s, ms, lastEnd)[0] == s[lastEnd..ms[0].start];
      forall k | 1 <= k <= |ms|
        ensures Gaps(s, ms, lastEnd)[k]
                == s[(if k == 0 then lastEnd else ms[k - 1].end)..(if k == |ms| then |s| else ms[k].start)]
      {
        assert Gaps(s, ms, lastEnd)[k] == Gaps(s, rest, ms[0].end)[k - 1];
        if k >= 2 {
          assert rest[k - 2] == ms[k - 1];
        }
        if k < |ms| {
          assert rest[k - 1] == ms[k];
        }
      }
    }
  }

  /** The printed output: each gap (when not blank) followed by the next block. */
  function Weave(gaps: seq<string>, blocks: seq<Item>): seq<Item>
    requires |gaps| == |blocks| + 1
    decreases |blocks|
  {
    if blocks == [] then Gap(gaps[0])
    else Gap(gaps[0]) + [blocks[0]] + Weave(gaps[1..], blocks[1..])
  }

  /** What `render_content(content)` prints, in order. */
  function Render(content: string): seq<Item> {
    var ms := FindIter(content);
    Weave(Gaps(content, ms, 0), BlockItems(Itemizer(content), ms))
  }

  /** The block items of an output, in order. */
  function Blocks(items: seq<Item>): seq<Item>
    decreases |items|
  {
    if items == [] then []
    else if items[0].Markdown? then Blocks(items[1..])
    else [items[0]] + Blocks(items[1..])
  }

  /** The texts of the plain-text items of an output, in order. */
  function Texts(items: seq<Item>): seq<string>
    decreases |items|
  {
    if items == [] then []
    else if items[0].Markdown? then [items[0].text] + Texts(items[1..])
    else Texts(items[1..])
  }

  lemma FiltersAppend(a: seq<Item>, b: seq<Item>)
    ensures Blocks(a + b) == Blocks(a) + Blocks(b)
    ensures Texts(a + b) == Texts(a) + Texts(b)
  {
    BlocksAppend(a, b);
    TextsAppend(a, b);
  }

  lemma {:induction false} BlocksAppend(a: seq<Item>, b: seq<Item>)
    ensures Blocks(a + b) == Blocks(a) + Blocks(b)
    decreases |a|
  {
    if a != [] {
      BlocksAppend(a[1..], b);
      assert (a + b)[0] == a[0];
      assert (a + b)[1..] == a[1..] + b;
      if !a[0].Markdown? {
        AppendAssoc([a[0]], Blocks(a[1..]), Blocks(b));
      }
    } else {
      assert a + b == b;
    }
  }

  lemma {:induction false} TextsAppend(a: seq<Item>, b: seq<Item>)
    ensures Texts(a + b) == Texts(a) + Texts(b)
    decreases |a|
  {
    if a != [] {
      TextsAppend(a[1..], b);
      assert (a + b)[0] == a[0];
      assert (a + b)[1..] == a[1..] + b;
      if a[0].Markdown? {
        AppendAssoc([a[0].text], Texts(a[1..]), Texts(b));
      }
    } else {
      assert a + b == b;
    }
  }

  /** The stripped forms of the non-blank gaps, in order. */
  function StrippedNonBlank(gaps: seq<string>): seq<string>
    decreases |gaps|
  {
    if gaps == [] then []
    else if IsBlank(gaps[0]) then StrippedNonBlank(gaps[1..])
    else [Trim(gaps[0])] + StrippedNonBlank(gaps[1..])
  }

  /** The filters of a gap's output. */
  lemma GapFilters(text: string)
    ensures Blocks(Gap(text)) == []
    ensures Texts(Gap(text)) == StrippedNonBlank([text])
  {
    var g := Gap(text);
    GapShape(text);
    if g != [] {
      assert g == [g[0]];
    }
    assert [text][1..] == [];
  }

  /** Woven output holds the blocks, unchanged and in order, and exactly the
      non-blank gaps, stripped and in order. */
  lemma {:induction false} WeaveContents(gaps: seq<string>, blocks: seq<Item>)
    requires |gaps| == |blocks| + 1
    requires forall k :: 0 <= k < |blocks| ==> !blocks[k].Markdown?
    ensures Blocks(Weave(gaps, blocks)) == blocks
    ensures Texts(Weave(gaps, blocks)) == StrippedNonBlank(gaps)
    decreases |blocks|
  {
    GapFilters(gaps[0]);
    if blocks == [] {
      assert gaps == [gaps[0]];
    } else {
      var g, b := Gap(gaps[0]), blocks[0];
      var rest := Weave(gaps[1..], blocks[1..]);
      WeaveContents(gaps[1..], blocks[1..]);
      FiltersAppend(g, [b]);
      FiltersAppend(g + [b], rest);
      assert [b][1..] == [];
      assert blocks == [b] + blocks[1..];
      assert gaps == [gaps[0]] + gaps[1..];
      FiltersAppend(Gap(gaps[0]), []);
    }
  }

  /** Every plain-text item is non-empty and has no surrounding white space. */
  predicate TextsStripped(items: seq<Item>) {
    forall k :: 0 <= k < |items| && items[k].Markdown? ==> Stripped(items[k].text)
  }

  lemma StrippedAppend(a: seq<Item>, b: seq<Item>)
    requires TextsStripped(a) && TextsStripped(b)
    ensures TextsStripped(a + b)
  {
    assert forall k :: |a| <= k < |a + b| ==> (a + b)[k] == b[k - |a|];
  }

  /** Plain text is never printed blank or with surrounding white space. */
  lemma {:induction false} WeaveStripped(gaps: seq<string>, blocks: seq<Item>)
    requires |gaps| == |blocks| + 1
    requires forall k :: 0 <= k < |blocks| ==> !blocks[k].Markdown?
    ensures TextsStripped(Weave(gaps, blocks))
    decreases |blocks|
  {
    GapShape(gaps[0]);
    if blocks != [] {
      WeaveStripped(gaps[1..], blocks[1..]);
      GapShape(gaps[0]);
      StrippedAppend(Gap(gaps[0]), [blocks[0]]);
      StrippedAppend(Gap(gaps[0]) + [blocks[0]], Weave(gaps[1..], blocks[1..]));
    }
  }

  /** `render_content` prints one item per block the scan finds, in order, and
      between them exactly the non-blank gaps of plain text, stripped, in order;
      no plain text it prints is blank or carries surrounding white space. */
  lemma RenderContents(content: string)
    ensures var ms := FindIter(content);
            && Blocks(Render(content)) == seq(|ms|, k requires 0 <= k < |ms| => BlockItem(content, ms[k]))
            && Texts(Render(content)) == StrippedNonBlank(Gaps(content, ms, 0))
    ensures TextsStripped(Render(content))
  {
    var ms := FindIter(content);
    var f := Itemizer(content);
    var blocks := BlockItems(f, ms);
    BlockItemsAt(f, ms);
    assert forall k :: 0 <= k < |ms| ==> InBounds(content, ms[k]);
    assert blocks == seq(|ms|, k requires 0 <= k < |ms| => BlockItem(content, ms[k]));
    WeaveContents(Gaps(content, ms, 0), blocks);
    WeaveStripped(Gaps(content, ms, 0), blocks);
  }

  /** The scan from the next match on: its gap, its item, and the rest. */
  lemma {:induction false} PendingCons(s: string, f: Match -> Item, m: Match, rest: seq<Match>, lastEnd: nat)
    requires lastEnd <= |s| && Chained(s, lastEnd, [m] + rest)
    ensures m.end <= |s| && lastEnd <= m.start && Chained(s, m.end, rest)
    ensures Weave(Gaps(s, [m] + rest, lastEnd), BlockItems(f, [m] + rest))
         == Gap(s[lastEnd..m.start]) + [f(m)] + Weave(Gaps(s, rest, m.end), BlockItems(f, rest))
  {
    var ms := [m] + rest;
    assert ms[0] == m && ms[1..] == rest;
    assert forall k :: 0 < k < |rest| ==> rest[k - 1] == ms[k] && rest[k] == ms[k + 1];
    if rest != [] {
      assert rest[0] == ms[1];
    }
    var gaps := Gaps(s, ms, lastEnd);
    var blocks := BlockItems(f, ms);
    assert gaps[0] == s[lastEnd..m.start] && gaps[1..] == Gaps(s, rest, m.end);
    assert blocks[0] == f(m) && blocks[1..] == BlockItems(f, rest);
  }

  lemma SliceCons<T>(s: seq<T>, i: nat)
    requires i < |s|
    ensures s[i..] == [s[i]] + s[i + 1..]
  {
  }

  /** The body of the `finditer` loop for one block (renderer.py:47-70). */
  method RenderBlock(content: string, m: Match) returns (item: Item)
    requires InBounds(content, m)
    ensures item == BlockItem(content, m)
  {
    var raw := content[m.start..m.end];
    var blockContent := Trim(content[m.bodyStart..m.bodyEnd]);
    if m.tag == "TABLE" {
      var table := ParseTableData(blockContent);
      if table.Some? && |table.value.headers| > 0 {
        item := TableView(table.value.headers, table.value.rows);
      } else {
        item := Diagnostic(Error, raw);
      }
    } else if m.tag == "CODE" {
      var lang := if m.param.Some? then m.param.value else "text";
      item := CodeView(lang, blockContent);
    } else {
      item := Diagnostic(Warning, raw);
    }
  }

  /** One turn of the `finditer` loop (renderer.py:43-70): the stripped text
      between the previous block and this one, if any, then the block. */
  method PrintBlock(content: string, lastEnd: nat, m: Match, printed: seq<Item>) returns (items: seq<Item>)
    requires lastEnd <= m.start && InBounds(content, m)
    ensures items == printed + (Gap(content[lastEnd..m.start]) + [BlockItem(content, m)])
  {
    items := printed;
    var preBlockText := Trim(content[lastEnd..m.start]);
    if preBlockText != [] {
      items := items + [Markdown(preBlockText)];
    }
    var item := RenderBlock(content, m);
    items := items + [item];
  }

  /** The text after the last block, stripped, if anything is left (renderer.py:75-77). */
  method PrintRemaining(content: string, lastEnd: nat, printed: seq<Item>) returns (items: seq<Item>)
    requires lastEnd <= |content|
    ensures items == printed + Gap(content[lastEnd..])
  {
    items := printed;
    var remainingText := Trim(content[lastEnd..]);
    if remainingText != [] {
      items := items + [Markdown(remainingText)];
    }
  }

  /** `render_content(content)` as the source writes it: a loop over the
      blocks `finditer` yields, whose cursor `lastEnd` marks the end of the last
      block printed. */
  method RenderContent(content: string) returns (items: seq<Item>)
    ensures items == Render(content)
  {
    var matches := FindIter(content);
    ghost var f := Itemizer(content);
    ghost var all := Render(content);
    items := [];
    var lastEnd: nat := 0;
    for i := 0 to |matches|
      invariant lastEnd <= |content| && Chained(content, lastEnd, matches[i..])
      invariant items + Weave(Gaps(content, matches[i..], lastEnd), BlockItems(f, matches[i..])) == all
    {
      var m := matches[i];
      SliceCons(matches, i);
      PendingCons(content, f, m, matches[i + 1..], lastEnd);
      AppendAssoc(items, Gap(content[lastEnd..m.start]) + [f(m)],
                  Weave(Gaps(content, matches[i + 1..], m.end), BlockItems(f, matches[i + 1..])));
      items := PrintBlock(content, lastEnd, m, items);
      assert f(m) == BlockItem(content, m);
      lastEnd := m.end;
    }
    assert matches[|matches|..] == [];
    items := PrintRemaining(content, lastEnd, items);
  }
}
