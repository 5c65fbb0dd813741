/** The string operations of the JavaScript runtime that the services rely
    on: the `\s` class, `trim`, `split`/`join`, `replace(/\s+/g, ' ')`,
    `indexOf`/`includes`, `replace` of a literal, `slice` and first-letter
    capitalisation. Strings are sequences of characters. */
module Text {
  import opened Common

  /** JavaScript's `\s` class: the WhiteSpace and LineTerminator code points.
      `String.prototype.trim` strips exactly the same set. */
  predicate IsSpace(c: char) {
    || c == ' ' || c == '\t' || c == '\n' || c == '\U{B}' || c == '\U{C}' || c == '\r'
    || c == '\U{A0}' || c == '\U{1680}' || ('\U{2000}' <= c <= '\U{200A}')
    || c == '\U{2028}' || c == '\U{2029}' || c == '\U{202F}' || c == '\U{205F}'
    || c == '\U{3000}' || c == '\U{FEFF}'
  }

  /** The characters the regular-expression `.` does not match. */
  predicate IsLineTerminator(c: char) {
    c == '\n' || c == '\r' || c == '\U{2028}' || c == '\U{2029}'
  }

  predicate AllSpace(s: string) {
    forall i :: 0 <= i < |s| ==> IsSpace(s[i])
  }

  predicate NoSpace(s: string) {
    forall i :: 0 <= i < |s| ==> !IsSpace(s[i])
  }

  /** Neither end of `s` is whitespace. */
  predicate NoEdgeSpace(s: string) {
    |s| == 0 || (!IsSpace(s[0]) && !IsSpace(s[|s| - 1]))
  }

  /** Every whitespace character is a plain space and no two are adjacent. */
  predicate SingleSpaced(s: string) {
    && (forall i :: 0 <= i < |s| && IsSpace(s[i]) ==> s[i] == ' ')
    && (forall i :: 0 <= i < |s| - 1 ==> !(IsSpace(s[i]) && IsSpace(s[i + 1])))
  }

  /** The non-whitespace characters of `s`, in order. */
  function NonSpace(s: string): string
  {
    if |s| == 0 then ""
    else if IsSpace(s[0]) then NonSpace(s[1..])
    else [s[0]] + NonSpace(s[1..])
  }

  lemma {:induction false} NonSpaceAppend(a: string, b: string)
    ensures NonSpace(a + b) == NonSpace(a) + NonSpace(b)
    decreases |a|
  {
    if |a| == 0 {
      assert a + b == b;
    } else {
      assert (a + b)[1..] == a[1..] + b;
      NonSpaceAppend(a[1..], b);
    }
  }

  lemma {:induction false} NonSpaceOfAllSpace(s: string)
    requires AllSpace(s)
    ensures NonSpace(s) == ""
    decreases |s|
  {
    if |s| > 0 {
      NonSpaceOfAllSpace(s[1..]);
    }
  }

  // ---------------------------------------------------------------- trim

  /** Length of the longest all-whitespace prefix. */
  function LeadingSpace(s: string): (k: nat)
    ensures k <= |s|
    ensures AllSpace(s[..k])
    ensures k < |s| ==> !IsSpace(s[k])
    ensures k == |s| <==> AllSpace(s)
    decreases |s|
  {
    if |s| > 0 && IsSpace(s[0]) then
      var k := 1 + LeadingSpace(s[1..]);
      assert s[..k] == [s[0]] + s[1..][..k - 1];
      k
    else 0
  }

  /** Length of the longest all-whitespace suffix. */
  function TrailingSpace(s: string): (k: nat)
    ensures k <= |s|
    ensures AllSpace(s[|s| - k..])
    ensures k < |s| ==> !IsSpace(s[|s| - k - 1])
    ensures k == |s| <==> AllSpace(s)
    decreases |s|
  {
    if |s| > 0 && IsSpace(s[|s| - 1]) then
      var k := 1 + TrailingSpace(s[..|s| - 1]);
      assert s[|s| - k..] == s[..|s| - 1][|s| - k..] + [s[|s| - 1]];
      k
    else 0
  }

  /** `s.trimStart()` */
  function TrimStart(s: string): (r: string)
    ensures |r| <= |s| && r == s[|s| - |r|..] && AllSpace(s[..|s| - |r|])
    ensures |r| == 0 || !IsSpace(r[0])
    ensures r == "" <==> AllSpace(s)
    ensures NonSpace(r) == NonSpace(s)
  {
    var k := LeadingSpace(s);
    assert s == s[..k] + s[k..];
    NonSpaceAppend(s[..k], s[k..]);
    NonSpaceOfAllSpace(s[..k]);
    s[k..]
  }

  /** `s.trimEnd()` */
  function TrimEnd(s: string): (r: string)
    ensures |r| <= |s| && r == s[..|r|] && AllSpace(s[|r|..])
    ensures |r| == 0 || !IsSpace(r[|r| - 1])
    ensures r == "" <==> AllSpace(s)
    ensures NonSpace(r) == NonSpace(s)
  {
    var k := TrailingSpace(s);
    assert s == s[..|s| - k] + s[|s| - k..];
    NonSpaceAppend(s[..|s| - k], s[|s| - k..]);
    NonSpaceOfAllSpace(s[|s| - k..]);
    s[..|s| - k]
  }

  /** `s.trim()`: drops whitespace at both ends and nothing else. The
      result is the stretch of `s` after its leading whitespace, and only
      whitespace follows it. */
  function Trim(s: string): (r: string)
    ensures NoEdgeSpace(r)
    ensures NonSpace(r) == NonSpace(s)
    ensures r == "" <==> AllSpace(s)
    ensures |r| <= |s|
    ensures var k := LeadingSpace(s);
      && k + |r| <= |s| && r == s[k..k + |r|] && AllSpace(s[k + |r|..])
  {
    var k := LeadingSpace(s);
    var t := TrimStart(s);
    assert t == s[k..];
    var r := TrimEnd(t);
    assert |r| > 0 ==> r[0] == t[0];
    assert r == s[k..k + |r|];
    assert t[|r|..] == s[k + |r|..];
    r
  }

  lemma TrimOfNoEdgeSpace(s: string)
    requires NoEdgeSpace(s)
    ensures Trim(s) == s
  {
    if |s| > 0 {
      assert LeadingSpace(s) == 0;
      assert TrailingSpace(s) == 0;
    }
  }

  // ------------------------------------------------- whitespace collapsing

  /** `s.replace(/\s+/g, ' ')`: every maximal whitespace run becomes one space. */
  function Collapse(s: string): (r: string)
    ensures NonSpace(r) == NonSpace(s)
    ensures SingleSpaced(r)
    ensures |r| == 0 <==> |s| == 0
    ensures |s| > 0 ==> (IsSpace(r[0]) <==> IsSpace(s[0]))
    ensures |s| > 0 ==> (IsSpace(r[|r| - 1]) <==> IsSpace(s[|s| - 1]))
    decreases |s|
  {
    if |s| == 0 then ""
    else if IsSpace(s[0]) then
      var k := LeadingSpace(s);
      var tail := Collapse(s[k..]);
      NonSpaceAppend(s[..k], s[k..]);
      assert s == s[..k] + s[k..];
      NonSpaceOfAllSpace(s[..k]);
      NonSpaceAppend(" ", tail);
      assert k < |s| ==> s[|s| - 1] == s[k..][|s[k..]| - 1];
      assert k == |s| ==> IsSpace(s[|s| - 1]) by {
        if k == |s| { assert s[|s| - 1] == s[..k][|s| - 1]; }
      }
      " " + tail
    else
      var tail := Collapse(s[1..]);
      NonSpaceAppend([s[0]], tail);
      [s[0]] + tail
  }

  /** `s.trim().replace(/\s+/g, ' ')` */
  function Normalize(s: string): (r: string)
    ensures NoEdgeSpace(r)
    ensures SingleSpaced(r)
    ensures NonSpace(r) == NonSpace(s)
    ensures Words(r) == Words(s)
  {
    TrimKeepsWords(s);
    CollapseKeepsWords(Trim(s));
    Collapse(Trim(s))
  }

  // --------------------------------------------------------------- words

  /** Length of the longest whitespace-free prefix. */
  function LeadingWord(s: string): (k: nat)
    ensures k <= |s|
    ensures NoSpace(s[..k])
    ensures k < |s| ==> IsSpace(s[k])
    decreases |s|
  {
    if |s| > 0 && !IsSpace(s[0]) then
      var k := 1 + LeadingWord(s[1..]);
      assert s[..k] == [s[0]] + s[1..][..k - 1];
      k
    else 0
  }

  /** `s.split(/\s+/).filter(w => w.length > 0)`: the maximal runs of
      non-whitespace characters, in order. */
  function Words(s: string): (ws: seq<string>)
    ensures forall i :: 0 <= i < |ws| ==> |ws[i]| > 0 && NoSpace(ws[i])
    decreases |s|
  {
    var t := TrimStart(s);
    if |t| == 0 then []
    else
      var k := LeadingWord(t);
      [t[..k]] + Words(t[k..])
  }

  /** Number of positions where a word starts, scanning `s` with the flag
      "the previous character was whitespace (or there was none)". */
  function RunStarts(s: string, afterSpace: bool): nat
    decreases |s|
  {
    if |s| == 0 then 0
    else (if afterSpace && !IsSpace(s[0]) then 1 else 0) + RunStarts(s[1..], IsSpace(s[0]))
  }

  lemma {:induction false} RunStartsInsideWord(s: string, k: nat)
    requires k <= |s| && NoSpace(s[..k])
    requires k < |s| ==> IsSpace(s[k])
    requires 0 < k
    ensures RunStarts(s[1..], false) == RunStarts(s[k..], true)
    decreases k
  {
    if k == 1 {
      if |s| > 1 {
        assert s[1..][0] == s[1];
        assert s[1..][1..] == s[2..];
      }
    } else {
      assert s[1..][0] == s[..k][1];
      assert s[1..][1..] == s[2..];
      assert s[1..][..k - 1] == s[..k][1..];
      assert s[1..][k - 1..] == s[k..];
      RunStartsInsideWord(s[1..], k - 1);
    }
  }

  lemma {:induction false} RunStartsSkipSpace(s: string, k: nat)
    requires k <= |s| && AllSpace(s[..k])
    ensures RunStarts(s, true) == RunStarts(s[k..], true)
    decreases k
  {
    if k > 0 {
      assert IsSpace(s[..k][0]);
      assert s[1..][..k - 1] == s[..k][1..];
      assert s[1..][k - 1..] == s[k..];
      RunStartsSkipSpace(s[1..], k - 1);
    }
  }

  /** The word count of the split-and-filter definition is the number of
      word starts. */
  lemma {:induction false} WordsCountRuns(s: string)
    ensures |Words(s)| == RunStarts(s, true)
    decreases |s|
  {
    var lead := LeadingSpace(s);
    var t := s[lead..];
    RunStartsSkipSpace(s, lead);
    if |t| > 0 {
      var k := LeadingWord(t);
      assert k > 0;
      assert t[1..][0..] == t[1..];
      RunStartsInsideWord(t, k);
      WordsCountRuns(t[k..]);
    }
  }

  /** A maximal whitespace prefix is the one `LeadingSpace` measures. */
  lemma LeadingSpaceOf(s: string, m: nat)
    requires m <= |s| && AllSpace(s[..m])
    requires m < |s| ==> !IsSpace(s[m])
    ensures LeadingSpace(s) == m
  {
    var k := LeadingSpace(s);
    assert forall i :: 0 <= i < m ==> s[..m][i] == s[i];
    assert forall i :: 0 <= i < k ==> s[..k][i] == s[i];
  }

  /** A maximal whitespace-free prefix is the one `LeadingWord` measures. */
  lemma LeadingWordOf(s: string, m: nat)
    requires m <= |s| && NoSpace(s[..m])
    requires m < |s| ==> IsSpace(s[m])
    ensures LeadingWord(s) == m
  {
    var k := LeadingWord(s);
    assert forall i :: 0 <= i < m ==> s[..m][i] == s[i];
    assert forall i :: 0 <= i < k ==> s[..k][i] == s[i];
  }

  /** Whitespace in front adds no word. */
  lemma WordsSkipSpace(sp: string, t: string)
    requires AllSpace(sp)
    ensures Words(sp + t) == Words(t)
  {
    var x := sp + t;
    var l := LeadingSpace(t);
    assert x[..|sp| + l] == sp + t[..l];
    assert |sp| + l < |x| ==> x[|sp| + l] == t[l];
    LeadingSpaceOf(x, |sp| + l);
    assert TrimStart(x) == x[|sp| + l..] == t[l..] == TrimStart(t);
  }

  /** A string that starts with a word splits into that word and the words
      of the rest. */
  lemma WordsAtWord(t: string)
    requires |t| > 0 && !IsSpace(t[0])
    ensures Words(t) == [t[..LeadingWord(t)]] + Words(t[LeadingWord(t)..])
  {
    assert LeadingSpace(t) == 0;
    assert TrimStart(t) == t;
  }

  /** A non-whitespace character in front joins the first word of the rest,
      or forms a word of its own when the rest starts with whitespace. */
  lemma WordsCons(c: char, a: string)
    requires !IsSpace(c)
    ensures var m := LeadingWord(a);
      Words([c] + a) == [[c] + a[..m]] + Words(a[m..])
  {
    var x := [c] + a;
    var m := LeadingWord(a);
    assert x[..1 + m] == [c] + a[..m];
    assert NoSpace(x[..1 + m]) by {
      assert forall i :: 0 <= i < m ==> x[..1 + m][i + 1] == a[..m][i];
    }
    assert 1 + m < |x| ==> x[1 + m] == a[m];
    LeadingWordOf(x, 1 + m);
    assert x[1 + m..] == a[m..];
    WordsAtWord(x);
  }

  /** Putting a non-whitespace character in front of two strings with the
      same words, the same emptiness and the same kind of first character
      gives two strings with the same words. */
  lemma WordsConsAgree(c: char, a: string, b: string)
    requires !IsSpace(c)
    requires Words(a) == Words(b)
    requires |a| == 0 <==> |b| == 0
    requires |a| > 0 ==> (IsSpace(a[0]) <==> IsSpace(b[0]))
    ensures Words([c] + a) == Words([c] + b)
  {
    WordsCons(c, a);
    WordsCons(c, b);
    var ma, mb := LeadingWord(a), LeadingWord(b);
    if |a| > 0 && !IsSpace(a[0]) {
      WordsAtWord(a);
      WordsAtWord(b);
      assert a[..ma] == Words(a)[0] == Words(b)[0] == b[..mb];
      assert Words(a[ma..]) == Words(a)[1..] == Words(b)[1..] == Words(b[mb..]);
    } else {
      assert ma == 0 && mb == 0;
      assert a[0..] == a && b[0..] == b;
    }
  }

  /** Whitespace at the end adds no word. */
  lemma {:induction false} WordsDropTrailingSpace(x: string, sp: string)
    requires AllSpace(sp)
    ensures Words(x + sp) == Words(x)
    decreases |x|, 1
  {
    var l := LeadingSpace(x);
    var t := x[l..];
    assert x == x[..l] + t && x + sp == x[..l] + (t + sp);
    WordsSkipSpace(x[..l], t);
    WordsSkipSpace(x[..l], t + sp);
    if |t| == 0 {
      assert t + sp == sp + t;
      WordsSkipSpace(sp, t);
    } else {
      WordsBeforeSpace(t, sp);
    }
  }

  /** The case of `WordsDropTrailingSpace` where a word comes first. */
  lemma {:induction false} WordsBeforeSpace(t: string, sp: string)
    requires AllSpace(sp)
    requires |t| > 0 && !IsSpace(t[0])
    ensures Words(t + sp) == Words(t)
    decreases |t|, 0
  {
    var m := LeadingWord(t);
    var u := t + sp;
    assert u[..m] == t[..m];
    assert m < |u| ==> IsSpace(u[m]);
    LeadingWordOf(u, m);
    assert u[m..] == t[m..] + sp;
    WordsAtWord(t);
    WordsAtWord(u);
    WordsDropTrailingSpace(t[m..], sp);
  }

  lemma SplitAt(s: string, k: nat)
    requires k <= |s|
    ensures s == s[..k] + s[k..]
    ensures k == 1 ==> s == [s[0]] + s[1..]
  {
  }

  /** Trimming keeps every word, in order. */
  lemma TrimKeepsWords(s: string)
    ensures Words(Trim(s)) == Words(s)
  {
    var t := Trim(s);
    var k := LeadingSpace(s);
    ThreeParts(s, k, k + |t|);
    WordsPadded(s[..k], t, s[k + |t|..]);
  }

  lemma ThreeParts(s: string, i: nat, j: nat)
    requires i <= j <= |s|
    ensures s == s[..i] + s[i..j] + s[j..]
  {
  }

  /** Whitespace on either side adds no word. */
  lemma WordsPadded(pre: string, mid: string, post: string)
    requires AllSpace(pre) && AllSpace(post)
    ensures Words(pre + mid + post) == Words(mid)
  {
    WordsDropTrailingSpace(mid, post);
    WordsSkipSpace(pre, mid + post);
    Associative(pre, mid, post);
  }

  lemma Associative(a: string, b: string, c: string)
    ensures a + b + c == a + (b + c)
  {
  }

  /** Collapsing whitespace runs keeps every word, in order: the words of
      `s.replace(/\s+/g, ' ')` are the words of `s`. */
  lemma {:induction false} CollapseKeepsWords(s: string)
    ensures Words(Collapse(s)) == Words(s)
    decreases |s|
  {
    if |s| > 0 {
      if IsSpace(s[0]) {
        CollapseKeepsWords(s[LeadingSpace(s)..]);
        CollapseSpaceStep(s);
      } else {
        CollapseKeepsWords(s[1..]);
        CollapseWordStep(s);
      }
    }
  }

  /** The step of `CollapseKeepsWords` at a whitespace run. */
  lemma CollapseSpaceStep(s: string)
    requires |s| > 0 && IsSpace(s[0])
    requires Words(Collapse(s[LeadingSpace(s)..])) == Words(s[LeadingSpace(s)..])
    ensures Words(Collapse(s)) == Words(s)
  {
    var k := LeadingSpace(s);
    var rest := s[k..];
    var tail := Collapse(rest);
    WordsSkipSpace(" ", tail);
    SplitAt(s, k);
    WordsSkipSpace(s[..k], rest);
    assert Collapse(s) == " " + tail;
  }

  /** The step of `CollapseKeepsWords` at a non-whitespace character. */
  lemma CollapseWordStep(s: string)
    requires |s| > 0 && !IsSpace(s[0])
    requires Words(Collapse(s[1..])) == Words(s[1..])
    ensures Words(Collapse(s)) == Words(s)
  {
    var rest := s[1..];
    var tail := Collapse(rest);
    assert |tail| == 0 <==> |rest| == 0;
    assert |tail| > 0 ==> (IsSpace(tail[0]) <==> IsSpace(rest[0]));
    WordsConsAgree(s[0], tail, rest);
    SplitAt(s, 1);
    assert Collapse(s) == [s[0]] + tail;
  }

  // ------------------------------------------------------- split and join

  /** `s.split(sep)` for a separator class of single characters. */
  function Split(s: string, seps: set<char>): (parts: seq<string>)
    ensures |parts| >= 1
    ensures forall i :: 0 <= i < |parts| ==> forall j :: 0 <= j < |parts[i]| ==> parts[i][j] !in seps
    ensures |parts[0]| <= |s| && parts[0] == s[..|parts[0]|]
    ensures |parts[0]| < |s| ==> s[|parts[0]|] in seps
    decreases |s|
  {
    if |s| == 0 then [""]
    else
      var rest := Split(s[1..], seps);
      if s[0] in seps then [""] + rest
      else [[s[0]] + rest[0]] + rest[1..]
  }

  /** `parts.join(sep)` */
  function Join(parts: seq<string>, sep: string): string
  {
    if |parts| == 0 then ""
    else if |parts| == 1 then parts[0]
    else parts[0] + sep + Join(parts[1..], sep)
  }

  /** Splitting on one character and joining back with it gives the input. */
  lemma {:induction false} SplitJoin(s: string, c: char)
    ensures Join(Split(s, {c}), [c]) == s
    decreases |s|
  {
    if |s| > 0 {
      var rest := Split(s[1..], {c});
      SplitJoin(s[1..], c);
      if s[0] == c {
        assert Split(s, {c}) == [""] + rest;
        assert ([""] + rest)[1..] == rest;
      } else {
        var parts := [[s[0]] + rest[0]] + rest[1..];
        assert Split(s, {c}) == parts;
        if |rest| == 1 {
          assert Join(rest, [c]) == rest[0];
        } else {
          assert parts[1..] == rest[1..];
          assert Join(rest, [c]) == rest[0] + [c] + Join(rest[1..], [c]);
        }
      }
    }
  }

  /** The element at `index` of `s.split(sep)`, or `undefined`. */
  function SplitPart(s: string, seps: set<char>, index: nat): Option<string>
  {
    var parts := Split(s, seps);
    if index < |parts| then Some(parts[index]) else None
  }

  lemma {:induction false} SplitPartOne(s: string, c: char, i: nat)
    requires i < |s| && s[i] == c
    requires forall j :: 0 <= j < i ==> s[j] != c
    ensures SplitPart(s, {c}, 1) == Some(Split(s[i + 1..], {c})[0])
    decreases i
  {
    if i > 0 {
      assert s[1..][i - 1] == s[i];
      assert s[1..][i..] == s[i + 1..];
      SplitPartOne(s[1..], c, i - 1);
    }
  }

  lemma {:induction false} SplitPartOneAbsent(s: string, c: char)
    requires forall j :: 0 <= j < |s| ==> s[j] != c
    ensures SplitPart(s, {c}, 1) == None
    decreases |s|
  {
    if |s| > 0 {
      SplitPartOneAbsent(s[1..], c);
    }
  }

  // -------------------------------------------------- searching and slicing

  predicate OccursAt(s: string, pat: string, i: nat) {
    i + |pat| <= |s| && s[i..i + |pat|] == pat
  }

  /** `s.indexOf(pat)` as an optional position: the first occurrence. */
  function IndexOf(s: string, pat: string): (r: Option<nat>)
    ensures r.Some? ==> OccursAt(s, pat, r.value)
    ensures r.Some? ==> forall j :: 0 <= j < r.value ==> !OccursAt(s, pat, j)
    ensures r.None? ==> forall j :: 0 <= j <= |s| ==> !OccursAt(s, pat, j)
    decreases |s|
  {
    if |pat| <= |s| && s[..|pat|] == pat then Some(0)
    else if |s| == 0 then None
    else
      match IndexOf(s[1..], pat)
      case None =>
        assert forall j :: 1 <= j <= |s| ==> (OccursAt(s, pat, j) ==> OccursAt(s[1..], pat, j - 1));
        None
      case Some(k) =>
        assert forall j :: 1 <= j <= k ==> (OccursAt(s, pat, j) ==> OccursAt(s[1..], pat, j - 1));
        assert s[1..][k..k + |pat|] == s[k + 1..k + 1 + |pat|];
        Some(k + 1)
  }

  /** `s.includes(pat)` */
  predicate Contains(s: string, pat: string) {
    IndexOf(s, pat).Some?
  }

  lemma OccursAtChar(s: string, c: char, j: nat)
    ensures OccursAt(s, [c], j) <==> j < |s| && s[j] == c
  {
    if j < |s| {
      assert s[j..j + 1] == [s[j]];
    }
  }

  /** `email.split('@')[1]`: the text after the first '@', up to the next
      '@' or the end; `undefined` when there is no '@'. */
  function DomainPart(email: string): (d: Option<string>)
    ensures d.None? <==> !Contains(email, "@")
    ensures d.Some? ==>
      var i := IndexOf(email, "@").value;
      && i + 1 + |d.value| <= |email|
      && d.value == email[i + 1..i + 1 + |d.value|]
      && (forall j :: 0 <= j < |d.value| ==> d.value[j] != '@')
      && (i + 1 + |d.value| < |email| ==> email[i + 1 + |d.value|] == '@')
  {
    match IndexOf(email, "@")
    case None =>
      forall j | 0 <= j < |email| {
        OccursAtChar(email, '@', j);
      }
      SplitPartOneAbsent(email, '@');
      SplitPart(email, {'@'}, 1)
    case Some(i) =>
      assert email[i..i + 1] == "@";
      forall j | 0 <= j < i {
        OccursAtChar(email, '@', j);
      }
      SplitPartOne(email, '@', i);
      SplitPart(email, {'@'}, 1)
  }

  /** `s.replace(pat, '')` for a literal pattern: removes its first occurrence. */
  function RemoveFirst(s: string, pat: string): (r: string)
    ensures !Contains(s, pat) ==> r == s
    ensures Contains(s, pat) ==> |r| == |s| - |pat|
    ensures Contains(s, pat) ==>
      var i := IndexOf(s, pat).value; r == s[..i] + s[i + |pat|..]
  {
    match IndexOf(s, pat)
    case None => s
    case Some(i) => s[..i] + s[i + |pat|..]
  }

  /** The first present element: the value of a chain of `a || b || ...`
      over optional values, or of the first matching pattern in a list. */
  function FirstSome<T>(xs: seq<Option<T>>): (r: Option<T>)
    ensures r.None? <==> forall i :: 0 <= i < |xs| ==> xs[i].None?
    ensures r.Some? ==> exists i :: 0 <= i < |xs| && xs[i] == r && forall j :: 0 <= j < i ==> xs[j].None?
  {
    if |xs| == 0 then None
    else if xs[0].Some? then xs[0]
    else
      var r := FirstSome(xs[1..]);
      assert forall i :: 1 <= i < |xs| ==> xs[i] == xs[1..][i - 1];
      r
  }

  /** `s.slice(0, n)` */
  function Take(s: string, n: nat): (r: string)
    ensures |r| == if |s| < n then |s| else n
    ensures r <= s
  {
    if |s| <= n then s else s[..n]
  }

  /** ASCII `toUpperCase` of one character. */
  function UpperChar(c: char): char {
    if 'a' <= c <= 'z' then (c as int - 'a' as int + 'A' as int) as char else c
  }

  /** `w.charAt(0).toUpperCase() + w.slice(1)` */
  function UpperFirst(w: string): (r: string)
    ensures |r| == |w|
    ensures |w| > 0 ==> r[0] == UpperChar(w[0]) && r[1..] == w[1..]
  {
    if |w| == 0 then "" else [UpperChar(w[0])] + w[1..]
  }

  /** Applies `UpperFirst` to every element. */
  function MapUpperFirst(ws: seq<string>): (r: seq<string>)
    ensures |r| == |ws|
    ensures forall i :: 0 <= i < |ws| ==> r[i] == UpperFirst(ws[i])
  {
    if |ws| == 0 then [] else [UpperFirst(ws[0])] + MapUpperFirst(ws[1..])
  }
}
