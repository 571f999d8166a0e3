/**
 * The inline-image rewriter of the topic command handler
 * (`processTopicImagesInContent`, messageservice/topic.go:153-207).
 *
 * Content may carry image directives `[CQ:image,<params>]`. For each one
 * whose params hold a `url=`, the image is downloaded to a local file and
 * the directive is rewritten to point at the file as served over HTTP.
 * The fixed regular expressions of the source are written here as
 * scanners; the download and the clock are parameters.
 */
module Media {
  import opened Wrappers
  import opened Strs

  /** The opening of an image directive. */
  const BlockOpen := "[CQ:image,"

  /** `TopicImageSaveDir`. */
  const SaveDir := "./images/topics"

  /** `TopicImageServerBaseURL`. */
  const ServerBase := "http://localhost:8080"

  // ---------------------------------------------------------------------
  // Finding the directives: `\[CQ:image,([^]]+)\]`

  /** One match of the directive pattern: the whole directive and its params. */
  datatype Block = Block(text: string, params: string)

  /** The length of the directive that starts `s`, if one does: the opening,
      one or more characters other than `]`, and the closing `]`. */
  function BlockAt(s: string): (n: Option<nat>)
    ensures n.Some? ==> 12 <= n.value <= |s|
  {
    if |s| >= 10 && s[..10] == BlockOpen then
      match IndexOf(s[10..], "]")
      case Some(j) => if j >= 1 then Some(10 + j + 1) else None
      case None => None
    else None
  }

  lemma BlockAtShape(s: string)
    requires BlockAt(s).Some?
    ensures var n := BlockAt(s).value;
      && s[..n] == BlockOpen + s[10..n - 1] + "]"
      && ']' !in s[10..n - 1]
  {
    var n := BlockAt(s).value;
    var t := s[10..];
    IndexOfFirst(t, "]");
    assert OccursAt(t, "]", n - 11);
    forall k | 0 <= k < n - 11 ensures t[k] != ']' {
      assert !OccursAt(t, "]", k);
      assert t[k..k + 1] == [t[k]];
    }
    assert s[10..n - 1] == t[..n - 11];
    assert s[n - 1] == t[n - 11..n - 10][0];
    assert s[..n] == s[..10] + s[10..n - 1] + [s[n - 1]];
  }

  /** `FindAllStringSubmatch` of the directive pattern. */
  function Blocks(s: string): (bs: seq<Block>)
    ensures forall b <- bs :: b.text == BlockOpen + b.params + "]" && |b.params| >= 1 && ']' !in b.params
  {
    BlocksFrom(s, 0)
  }

  /** The search from position `p` on: the leftmost match, then the search
      goes on after it. */
  function BlocksFrom(s: string, p: nat): (bs: seq<Block>)
    requires p <= |s|
    ensures forall b <- bs :: b.text == BlockOpen + b.params + "]" && |b.params| >= 1 && ']' !in b.params
    decreases |s| - p
  {
    if p == |s| then []
    else match BlockAt(s[p..])
      case Some(n) =>
        BlockShapeAt(s, p);
        [Block(s[p..p + n], s[p + 10..p + n - 1])] + BlocksFrom(s, p + n)
      case None => BlocksFrom(s, p + 1)
  }

  /** `BlockAtShape` for a match at position `p` of `s`. */
  lemma BlockShapeAt(s: string, p: nat)
    requires p <= |s| && BlockAt(s[p..]).Some?
    ensures var n := BlockAt(s[p..]).value;
      && p + n <= |s|
      && s[p..p + n] == BlockOpen + s[p + 10..p + n - 1] + "]"
      && ']' !in s[p + 10..p + n - 1]
  {
    var n := BlockAt(s[p..]).value;
    BlockAtShape(s[p..]);
    assert s[p..][..n] == s[p..p + n];
    assert s[p..][10..n - 1] == s[p + 10..p + n - 1];
  }

  /** From position `p` on there is no directive exactly when the pattern
      matches at no position from `p` on. */
  lemma {:induction false} BlocksNoneIff(s: string, p: nat)
    requires p <= |s|
    ensures BlocksFrom(s, p) == [] <==> forall i :: p <= i <= |s| ==> BlockAt(s[i..]).None?
    decreases |s| - p
  {
    if p < |s| {
      BlocksNoneIff(s, p + 1);
    }
  }

  /** The pattern matches at none of the positions `p` to `i - 1` of `s`. */
  predicate NoBlockBetween(s: string, p: nat, i: nat)
    requires i <= |s|
    decreases i - p
  {
    p >= i || (BlockAt(s[p..]).None? && NoBlockBetween(s, p + 1, i))
  }

  lemma {:induction false} NoBlockBetweenAll(s: string, p: nat, i: nat)
    requires i <= |s| && NoBlockBetween(s, p, i)
    ensures forall j :: p <= j < i ==> BlockAt(s[j..]).None?
    decreases i - p
  {
    if p < i {
      NoBlockBetweenAll(s, p + 1, i);
    }
  }

  /** The first directive found from `p` on is the leftmost place the
      pattern matches, at `i` with length `n`, and the rest are what the
      search finds after it: the matches are found left to right without
      overlap. */
  lemma BlocksFirst(s: string, p: nat) returns (i: nat, n: nat)
    requires p <= |s| && BlocksFrom(s, p) != []
    ensures p <= i && i + n <= |s| && BlockAt(s[i..]) == Some(n)
    ensures forall j :: p <= j < i ==> BlockAt(s[j..]).None?
    ensures BlocksFrom(s, p) == [Block(s[i..i + n], s[i + 10..i + n - 1])] + BlocksFrom(s, i + n)
  {
    i, n := FirstMatch(s, p);
    assert FirstAt(s, p, i, n);
    NoBlockBetweenAll(s, p, i);
  }

  /** The search from `p` finds its first directive at `i` with length `n`. */
  predicate FirstAt(s: string, p: nat, i: nat, n: nat)
    requires p <= |s|
  {
    && p <= i && i + n <= |s| && BlockAt(s[i..]) == Some(n)
    && NoBlockBetween(s, p, i)
    && BlocksFrom(s, p) == [Block(s[i..i + n], s[i + 10..i + n - 1])] + BlocksFrom(s, i + n)
  }

  lemma {:induction false} FirstMatch(s: string, p: nat) returns (i: nat, n: nat)
    requires p <= |s| && BlocksFrom(s, p) != []
    ensures FirstAt(s, p, i, n)
    decreases |s| - p
  {
    match BlockAt(s[p..])
    case Some(m) =>
      i, n := p, m;
    case None =>
      assert BlocksFrom(s, p) == BlocksFrom(s, p + 1);
      i, n := FirstMatch(s, p + 1);
  }

  /** Without an opening there is no directive. */
  lemma NoOpenNoBlocks(s: string)
    requires forall i :: !OccursAt(s, BlockOpen, i)
    ensures Blocks(s) == []
  {
    forall i | 0 <= i <= |s| ensures BlockAt(s[i..]).None? {
      assert !OccursAt(s, BlockOpen, i);
      assert |s[i..]| >= 10 ==> s[i..][..10] == s[i..i + 10];
    }
    BlocksNoneIff(s, 0);
  }

  // ---------------------------------------------------------------------
  // The image URL: `url=([^,]+)`

  /** The leading run of `s` that holds no comma. */
  function UntilComma(s: string): (r: string)
    ensures |r| <= |s| && r == s[..|r|]
    ensures ',' !in r
    ensures |r| == |s| || s[|r|] == ','
    decreases |s|
  {
    if s == [] || s[0] == ',' then [] else [s[0]] + UntilComma(s[1..])
  }

  /** The URL pattern matches at `i`: `url=` and a character other than a comma. */
  predicate UrlAt(p: string, i: nat) {
    i + 5 <= |p| && p[i..i + 4] == "url=" && p[i + 4] != ','
  }

  /** A match of the URL pattern: where it starts and the captured value. */
  datatype UrlMatch = UrlMatch(start: nat, value: string) {
    /** The whole matched text. */
    function Text(): string {
      "url=" + value
    }
  }

  /** `FindStringSubmatch` of the URL pattern from position `i` on: the
      leftmost match, with the longest comma-free value. */
  function FindUrlFrom(p: string, i: nat): (m: Option<UrlMatch>)
    ensures m.Some? ==> i <= m.value.start && m.value.start + 4 + |m.value.value| <= |p|
    decreases |p| - i
  {
    if i + 5 > |p| then None
    else if UrlAt(p, i) then Some(UrlMatch(i, UntilComma(p[i + 4..])))
    else FindUrlFrom(p, i + 1)
  }

  /** The search finds the leftmost place the pattern matches, with the
      longest comma-free value, and `None` only when it matches nowhere. */
  lemma FindUrlLeftmost(p: string, i: nat)
    ensures var m := FindUrlFrom(p, i);
      && (m.Some? ==> UrlAt(p, m.value.start) && m.value.value == UntilComma(p[m.value.start + 4..]))
      && (m.Some? ==> forall j :: i <= j < m.value.start ==> !UrlAt(p, j))
      && (m.None? ==> forall j :: i <= j ==> !UrlAt(p, j))
  {
    FindUrlMatches(p, i);
    FindUrlNoneBefore(p, i);
    FindUrlNowhere(p, i);
  }

  lemma {:induction false} FindUrlMatches(p: string, i: nat)
    ensures var m := FindUrlFrom(p, i);
      m.Some? ==> UrlAt(p, m.value.start) && m.value.value == UntilComma(p[m.value.start + 4..])
    decreases |p| - i
  {
    if i + 5 <= |p| && !UrlAt(p, i) {
      FindUrlMatches(p, i + 1);
    }
  }

  lemma {:induction false} FindUrlNoneBefore(p: string, i: nat)
    ensures var m := FindUrlFrom(p, i);
      m.Some? ==> forall j :: i <= j < m.value.start ==> !UrlAt(p, j)
    decreases |p| - i
  {
    if i + 5 <= |p| && !UrlAt(p, i) {
      FindUrlNoneBefore(p, i + 1);
    }
  }

  lemma {:induction false} FindUrlNowhere(p: string, i: nat)
    ensures FindUrlFrom(p, i).None? ==> forall j :: i <= j ==> !UrlAt(p, j)
    decreases |p| - i
  {
    if i + 5 <= |p| && !UrlAt(p, i) {
      FindUrlNowhere(p, i + 1);
    }
  }


  function FindUrl(p: string): Option<UrlMatch> {
    FindUrlFrom(p, 0)
  }

  /** The URL match is the first occurrence of its own text, so replacing
      that text once removes exactly the match. */
  lemma UrlRemoval(p: string)
    requires FindUrl(p).Some?
    ensures var m := FindUrl(p).value;
      ReplaceFirst(p, m.Text(), "") == p[..m.start] + p[m.start + |m.Text()|..]
  {
    var m := FindUrl(p).value;
    UrlMatchFirst(p, m);
    assert IndexOf(p, m.Text()) == Some(m.start);
  }

  lemma UrlMatchFirst(p: string, m: UrlMatch)
    requires FindUrl(p) == Some(m)
    ensures IndexOf(p, m.Text()) == Some(m.start)
  {
    var t := m.Text();
    FindUrlLeftmost(p, 0);
    assert |m.value| >= 1 && m.value[0] == p[m.start + 4];
    assert p[m.start..m.start + |t|] == t by {
      assert p[m.start..m.start + 4] == "url=";
      assert p[m.start + 4..m.start + |t|] == p[m.start + 4..][..|m.value|] == m.value;
    }
    assert OccursAt(p, t, m.start);
    forall j | 0 <= j < m.start ensures !OccursAt(p, t, j) {
      UrlOccurrence(p, m.value, j);
    }
    IndexOfIs(p, t, m.start);
  }

  /** Every occurrence of a URL match's text is itself a place the URL pattern matches. */
  lemma UrlOccurrence(p: string, v: string, j: nat)
    requires |v| >= 1 && v[0] != ','
    ensures OccursAt(p, "url=" + v, j) ==> UrlAt(p, j)
  {
    var t := "url=" + v;
    if OccursAt(p, t, j) {
      assert p[j..j + 4] == p[j..j + |t|][..4] == t[..4];
      assert p[j + 4] == p[j..j + |t|][4] == t[4];
    }
  }

  /** `strings.ReplaceAll(url, "&amp;", "&")`: the HTML escape of `&` undone. */
  function DecodeAmp(url: string): string {
    ReplaceAll(url, "&amp;", "&")
  }

  /** A URL without the escape is handed over as it is. */
  lemma DecodeAmpPlain(url: string)
    requires forall i :: !OccursAt(url, "&amp;", i)
    ensures DecodeAmp(url) == url
  {
    IndexOfFirst(url, "&amp;");
  }

  /** The first escape is decoded and the decoding goes on after it. */
  lemma DecodeAmpStep(a: string, b: string)
    requires !Contains(a, "&amp;")
    ensures DecodeAmp(a + "&amp;" + b) == a + "&" + DecodeAmp(b)
  {
    var pat := "&amp;";
    var s := a + pat + b;
    IndexOfFirst(a, pat);
    assert s[|a|..|a| + 5] == pat;
    forall j | 0 <= j < |a| ensures !OccursAt(s, pat, j) {
      if j + 5 <= |a| {
        assert !OccursAt(a, pat, j);
        assert s[j..j + 5] == a[j..j + 5];
      } else {
        assert s[|a|] == '&';
        assert pat[|a| - j] != '&';
      }
    }
    IndexOfIs(s, pat, |a|);
    assert s[..|a|] == a;
    assert s[|a| + 5..] == b;
  }

  // ---------------------------------------------------------------------
  // The file parameter: `file=[^,]+`

  /** The file pattern matches at the start of `s`. */
  predicate FileStart(s: string) {
    |s| >= 6 && s[..5] == "file=" && s[5] != ','
  }

  /** `MatchString` of the file pattern: it matches somewhere in `s`. */
  predicate HasFile(s: string)
    decreases |s|
  {
    FileStart(s) || (s != [] && HasFile(s[1..]))
  }

  /** The length of the file match at the start of `s`. */
  function FileMatchLen(s: string): (n: nat)
    requires FileStart(s)
    ensures 6 <= n <= |s|
  {
    5 + |UntilComma(s[5..])|
  }

  /** `ReplaceAllString` of the file pattern: every match, leftmost first and
      without overlap, is replaced by `replace` applied to the matched text. */
  function ReplaceFiles(s: string, replace: string -> string): string
    decreases |s|
  {
    if s == [] then []
    else if FileStart(s) then
      var n := FileMatchLen(s);
      replace(s[..n]) + ReplaceFiles(s[n..], replace)
    else [s[0]] + ReplaceFiles(s[1..], replace)
  }

  /** Without a match nothing is replaced. */
  lemma {:induction false} ReplaceFilesNone(s: string, replace: string -> string)
    requires !HasFile(s)
    ensures ReplaceFiles(s, replace) == s
    decreases |s|
  {
    if s != [] {
      ReplaceFilesNone(s[1..], replace);
      assert [s[0]] + s[1..] == s;
    }
  }

  /** With a match, the replacement of the first match appears in the result. */
  lemma {:induction false} ReplaceFilesSome(s: string, rep: string) returns (k: nat)
    requires HasFile(s)
    ensures OccursAt(ReplaceFiles(s, _ => rep), rep, k)
    decreases |s|
  {
    var r := ReplaceFiles(s, _ => rep);
    if FileStart(s) {
      k := 0;
      assert r[..|rep|] == rep;
    } else {
      var k' := ReplaceFilesSome(s[1..], rep);
      k := k' + 1;
      assert r == [s[0]] + ReplaceFiles(s[1..], _ => rep);
      assert r[k..k + |rep|] == ReplaceFiles(s[1..], _ => rep)[k'..k' + |rep|];
    }
  }

  // ---------------------------------------------------------------------
  // Tidying commas: `,{2,}` to `,`, then `strings.Trim(_, ",")`

  /** No two commas in a row. */
  predicate NoDoubleComma(s: string) {
    forall i :: 0 <= i < |s| - 1 ==> !(s[i] == ',' && s[i + 1] == ',')
  }

  /** `s` with its commas taken out. */
  function Uncomma(s: string): string {
    if s == [] then [] else (if s[0] == ',' then [] else [s[0]]) + Uncomma(s[1..])
  }

  /** Every run of two or more commas becomes one comma. */
  function CollapseCommas(s: string): (r: string)
    ensures NoDoubleComma(r)
    ensures r == [] <==> s == []
    ensures r != [] ==> r[0] == s[0]
    decreases |s|
  {
    if |s| >= 2 && s[0] == ',' && s[1] == ',' then CollapseCommas(s[1..])
    else if s == [] then []
    else [s[0]] + CollapseCommas(s[1..])
  }

  /** A run of two commas collapses as one comma does: with `CollapseIdle`,
      this makes the collapse the replacement of every `,{2,}` by `,`. */
  lemma {:induction false} CollapseShrink(x: string, y: string)
    ensures CollapseCommas(x + ",," + y) == CollapseCommas(x + "," + y)
    decreases |x|
  {
    if x == [] {
      assert x + ",," + y == ",," + y && (",," + y)[1..] == "," + y;
      assert x + "," + y == "," + y;
    } else {
      assert (x + ",," + y)[1..] == x[1..] + ",," + y;
      assert (x + "," + y)[1..] == x[1..] + "," + y;
      CollapseShrink(x[1..], y);
    }
  }

  /** Collapsing drops commas only. */
  lemma {:induction false} CollapseKeepsText(s: string)
    ensures Uncomma(CollapseCommas(s)) == Uncomma(s)
    decreases |s|
  {
    if s != [] {
      CollapseKeepsText(s[1..]);
      if !(|s| >= 2 && s[0] == ',' && s[1] == ',') {
        assert (([s[0]] + CollapseCommas(s[1..]))[1..]) == CollapseCommas(s[1..]);
      }
    }
  }

  /** Collapsing leaves a string without doubled commas alone. */
  lemma {:induction false} CollapseIdle(s: string)
    requires NoDoubleComma(s)
    ensures CollapseCommas(s) == s
    decreases |s|
  {
    if s != [] {
      CollapseIdle(s[1..]);
      assert [s[0]] + s[1..] == s;
    }
  }

  /** A piece that starts without a comma splits the collapse. */
  lemma {:induction false} CollapseAppend(x: string, y: string)
    requires y == [] || y[0] != ','
    ensures CollapseCommas(x + y) == CollapseCommas(x) + CollapseCommas(y)
    decreases |x|
  {
    if x == [] {
      assert x + y == y;
    } else {
      assert (x + y)[1..] == x[1..] + y;
      CollapseAppend(x[1..], y);
    }
  }

  /** A comma-free piece passes through the collapse unchanged. */
  lemma {:induction false} CollapseCommaFree(x: string, y: string)
    requires ',' !in x
    ensures CollapseCommas(x + y) == x + CollapseCommas(y)
    decreases |x|
  {
    if x == [] {
      assert x + y == y;
    } else {
      assert (x + y)[1..] == x[1..] + y;
      CollapseCommaFree(x[1..], y);
    }
  }

  predicate IsComma(c: char) {
    c == ','
  }

  /** The comma tidy-up of the rewritten params. */
  function Tidy(s: string): (r: string)
    ensures NoDoubleComma(r)
    ensures r == [] || (r[0] != ',' && r[|r| - 1] != ',')
  {
    var c := CollapseCommas(s);
    var r := Trim(c, IsComma);
    TrimNoDoubleComma(c, r);
    r
  }

  /** Trimming keeps a string free of doubled commas. */
  lemma TrimNoDoubleComma(c: string, r: string)
    requires NoDoubleComma(c) && exists i :: TrimmedAt(c, r, IsComma, i)
    ensures NoDoubleComma(r)
  {
    var i: nat :| TrimmedAt(c, r, IsComma, i);
    forall k | 0 <= k < |r| - 1 ensures !(r[k] == ',' && r[k + 1] == ',') {
      assert r[k] == c[i + k] && r[k + 1] == c[i + k + 1];
    }
  }

  /** A comma-free piece that starts and ends with other characters survives
      the tidy-up. */
  lemma TidyKeeps(x: string, rep: string, y: string)
    requires |rep| >= 1 && ',' !in rep
    ensures Contains(Tidy(x + rep + y), rep)
  {
    assert x + rep + y == x + (rep + y);
    CollapseAppend(x, rep + y);
    CollapseCommaFree(rep, y);
    var c := CollapseCommas(x + rep + y);
    var a := CollapseCommas(x);
    assert c == a + rep + CollapseCommas(y);
    assert c[|a|..|a| + |rep|] == rep;
    TrimKeeps(c, rep, |a|);
  }

  /** Trimming commas keeps a comma-free piece. */
  lemma TrimKeeps(c: string, rep: string, lo: nat)
    requires |rep| >= 1 && ',' !in rep
    requires lo + |rep| <= |c| && c[lo..lo + |rep|] == rep
    ensures Contains(Trim(c, IsComma), rep)
  {
    var r := Trim(c, IsComma);
    var i: nat :| TrimmedAt(c, r, IsComma, i);
    TrimmedKeeps(c, r, i, rep, lo);
  }

  lemma TrimmedKeeps(c: string, r: string, i: nat, rep: string, lo: nat)
    requires TrimmedAt(c, r, IsComma, i)
    requires |rep| >= 1 && ',' !in rep
    requires lo + |rep| <= |c| && c[lo..lo + |rep|] == rep
    ensures Contains(r, rep)
  {
    assert c[lo] == rep[0] && c[lo + |rep| - 1] == rep[|rep| - 1];
    TrimKeepsInner(c, r, i, lo, lo + |rep|);
    ContainsAt(r, rep, lo - i);
  }

  /** Trimming commas keeps a slice that starts and ends with other characters. */
  lemma TrimKeepsInner(c: string, r: string, i: nat, lo: nat, hi: nat)
    requires TrimmedAt(c, r, IsComma, i)
    requires lo < hi <= |c| && c[lo] != ',' && c[hi - 1] != ','
    ensures i <= lo && hi <= i + |r|
    ensures r[lo - i..hi - i] == c[lo..hi]
  {
    assert !IsComma(c[lo]) && !IsComma(c[hi - 1]);
    assert i <= lo && hi <= i + |r|;
    forall j | 0 <= j < |r| ensures r[j] == c[i + j] {
      assert r[j] == c[i..i + |r|][j];
    }
  }

  // ---------------------------------------------------------------------
  // The rewritten params

  /** The params of a rewritten directive: the URL match removed, every file
      match replaced by `file=<httpUrl>` (or that prepended when there is
      none), then the commas tidied. The replacement is taken literally, as
      intended; `RewriteParamsAsWritten` below is what the code does. */
  function RewriteParams(params: string, m: UrlMatch, httpUrl: string): (r: string)
    ensures NoDoubleComma(r)
    ensures r == [] || (r[0] != ',' && r[|r| - 1] != ',')
  {
    var removed := ReplaceFirst(params, m.Text(), "");
    var rep := "file=" + httpUrl;
    if HasFile(removed) then Tidy(ReplaceFiles(removed, _ => rep))
    else Tidy(rep + "," + removed)
  }

  /** The rewritten params name the served file, when its URL has no comma. */
  lemma RewriteNamesFile(params: string, m: UrlMatch, httpUrl: string)
    requires ',' !in httpUrl
    ensures Contains(RewriteParams(params, m, httpUrl), "file=" + httpUrl)
  {
    var removed := ReplaceFirst(params, m.Text(), "");
    var rep := "file=" + httpUrl;
    if HasFile(removed) {
      var s := ReplaceFiles(removed, _ => rep);
      var k := ReplaceFilesSome(removed, rep);
      assert s == s[..k] + rep + s[k + |rep|..];
      TidyKeeps(s[..k], rep, s[k + |rep|..]);
    } else {
      assert rep + "," + removed == [] + rep + ("," + removed);
      TidyKeeps([], rep, "," + removed);
    }
  }

  /** Params already tidy pass through the tidy-up unchanged. */
  lemma TidyIdle(s: string)
    requires NoDoubleComma(s)
    requires s == [] || (s[0] != ',' && s[|s| - 1] != ',')
    ensures Tidy(s) == s
  {
    CollapseIdle(s);
    var r := Trim(s, IsComma);
    var i: nat :| TrimmedAt(s, r, IsComma, i);
    if s != [] {
      assert !IsComma(s[0]) && !IsComma(s[|s| - 1]);
      assert i == 0;
      assert i + |r| == |s|;
      assert r == s[0..|s|] == s;
    }
  }

  /** No file match starts in a match-free piece that ends in a comma. */
  lemma NoFileAcross(a: string, t: string)
    requires a != [] && !HasFile(a) && a[|a| - 1] == ','
    ensures !FileStart(a + t)
  {
    var s := a + t;
    if |a| >= 6 {
      assert s[..5] == a[..5] && s[5] == a[5];
      assert !FileStart(a);
    } else if |s| >= 6 {
      assert s[|a| - 1] == s[..5][|a| - 1] == ',';
    }
  }

  /** The file pattern does not match across the end of a match-free piece
      that ends in a comma: the replacement leaves that piece alone. */
  lemma {:induction false} ReplaceFilesAfter(a: string, t: string, replace: string -> string)
    requires !HasFile(a) && (a == [] || a[|a| - 1] == ',')
    ensures ReplaceFiles(a + t, replace) == a + ReplaceFiles(t, replace)
    decreases |a|
  {
    var r := ReplaceFiles(t, replace);
    if a == [] {
      assert a + t == t && a + r == r;
    } else {
      var s := a + t;
      NoFileAcross(a, t);
      ReplaceFilesStep(s, replace);
      assert s[0] == a[0] && s[1..] == a[1..] + t;
      ReplaceFilesAfter(a[1..], t, replace);
      assert ReplaceFiles(s, replace) == [a[0]] + (a[1..] + r);
      HeadAndRest(a, r);
    }
  }

  /** A string is its first character followed by the rest. */
  lemma HeadAndRest(a: string, r: string)
    requires a != []
    ensures [a[0]] + (a[1..] + r) == a + r
  {
    assert a == [a[0]] + a[1..];
  }

  /** Where no file match starts, the first character is copied. */
  lemma ReplaceFilesStep(s: string, replace: string -> string)
    requires s != [] && !FileStart(s)
    ensures ReplaceFiles(s, replace) == [s[0]] + ReplaceFiles(s[1..], replace)
  {
  }

  /** Behind such a piece the file pattern matches only where it matches `t`. */
  lemma {:induction false} HasFileAfter(a: string, t: string)
    requires !HasFile(a) && (a == [] || a[|a| - 1] == ',')
    ensures HasFile(a + t) == HasFile(t)
    decreases |a|
  {
    if a == [] {
      assert a + t == t;
    } else {
      NoFileAcross(a, t);
      assert (a + t)[1..] == a[1..] + t;
      HasFileAfter(a[1..], t);
    }
  }

  /** The comma-free run at the head of `v + b` is `v` when `b` starts at a comma. */
  lemma {:induction false} UntilCommaAt(v: string, b: string)
    requires ',' !in v && (b == [] || b[0] == ',')
    ensures UntilComma(v + b) == v
    decreases |v|
  {
    if v == [] {
      assert v + b == b;
    } else {
      assert (v + b)[1..] == v[1..] + b;
      UntilCommaAt(v[1..], b);
      assert [v[0]] + v[1..] == v;
    }
  }

  /** The whole replacement at a lone file parameter: the parameter becomes
      `file=<rep>` and the match-free rest follows unchanged. */
  lemma ReplaceFilesAtFile(v: string, b: string, rep: string)
    requires v != [] && ',' !in v
    requires !HasFile(b) && (b == [] || b[0] == ',')
    ensures FileStart("file=" + v + b)
    ensures ReplaceFiles("file=" + v + b, _ => rep) == rep + b
  {
    var t := "file=" + v + b;
    assert t[5] == v[0];
    assert t[5..] == v + b;
    UntilCommaAt(v, b);
    var n := FileMatchLen(t);
    assert n == 5 + |v|;
    assert t[n..] == b;
    ReplaceFilesNone(b, _ => rep);
  }

  /** The exact rewritten params: when the params without the URL are a
      match-free head ending in a comma, one file parameter, and a match-free
      tail starting at a comma, that parameter's value is replaced by the
      served address and nothing else changes but the comma tidy-up. */
  lemma RewriteParamsExact(params: string, m: UrlMatch, httpUrl: string, a: string, v: string, b: string)
    requires ReplaceFirst(params, m.Text(), "") == a + ("file=" + v + b)
    requires !HasFile(a) && (a == [] || a[|a| - 1] == ',')
    requires v != [] && ',' !in v
    requires !HasFile(b) && (b == [] || b[0] == ',')
    ensures RewriteParams(params, m, httpUrl) == Tidy(a + ("file=" + httpUrl + b))
  {
    var removed := ReplaceFirst(params, m.Text(), "");
    var rep := "file=" + httpUrl;
    ReplaceFilesAtFile(v, b, rep);
    ReplaceFilesAfter(a, "file=" + v + b, _ => rep);
    HasFileAfter(a, "file=" + v + b);
    assert HasFile("file=" + v + b);
    assert ReplaceFiles(removed, _ => rep) == a + (rep + b);
    assert rep + b == "file=" + httpUrl + b;
  }

  /** With nothing but one file parameter besides the URL, the rewritten
      params are exactly `file=<served address>`. */
  lemma RewriteParamsLone(params: string, m: UrlMatch, httpUrl: string, v: string)
    requires ReplaceFirst(params, m.Text(), "") == "file=" + v
    requires v != [] && ',' !in v && ',' !in httpUrl
    ensures RewriteParams(params, m, httpUrl) == "file=" + httpUrl
  {
    var e: string := [];
    assert e + ("file=" + v + e) == "file=" + v;
    assert e + ("file=" + httpUrl + e) == "file=" + httpUrl;
    RewriteParamsExact(params, m, httpUrl, e, v, e);
    TidyFile(httpUrl);
  }

  /** A lone `file=<address>` is already tidy. */
  lemma TidyFile(httpUrl: string)
    requires ',' !in httpUrl
    ensures Tidy("file=" + httpUrl) == "file=" + httpUrl
  {
    var r := "file=" + httpUrl;
    forall i | 0 <= i < |r| ensures r[i] != ',' {
      if i >= 5 { assert r[i] == httpUrl[i - 5]; }
    }
    TidyIdle(r);
  }

  /** A URL between the file parameter and the rest leaves `,,` behind, and
      the tidy-up makes it one comma: the served file and the rest stay
      separate fields. */
  lemma RewriteParamsMiddle(params: string, m: UrlMatch, httpUrl: string, v: string, rest: string)
    requires ReplaceFirst(params, m.Text(), "") == "file=" + v + ",," + rest
    requires v != [] && ',' !in v && ',' !in httpUrl
    requires rest != [] && rest[0] != ',' && rest[|rest| - 1] != ','
    requires NoDoubleComma(rest) && !HasFile(rest)
    ensures RewriteParams(params, m, httpUrl) == "file=" + httpUrl + "," + rest
  {
    var b := ",," + rest;
    Regroup("file=" + v, ",,", rest);
    CommasNoFile(rest);
    RewriteParamsHead(params, m, httpUrl, v, b);
    var x := "file=" + httpUrl;
    Regroup(x, ",,", rest);
    TidyShrink(x, rest);
    TidyFileRest(httpUrl, rest);
  }

  /** Concatenation regrouped. */
  lemma Regroup(x: string, y: string, z: string)
    ensures x + y + z == x + (y + z)
  {
  }

  /** `RewriteParamsExact` with nothing before the file parameter. */
  lemma RewriteParamsHead(params: string, m: UrlMatch, httpUrl: string, v: string, b: string)
    requires ReplaceFirst(params, m.Text(), "") == "file=" + v + b
    requires v != [] && ',' !in v
    requires !HasFile(b) && (b == [] || b[0] == ',')
    ensures RewriteParams(params, m, httpUrl) == Tidy("file=" + httpUrl + b)
  {
    var e: string := [];
    assert e + ("file=" + v + b) == "file=" + v + b;
    assert e + ("file=" + httpUrl + b) == "file=" + httpUrl + b;
    RewriteParamsExact(params, m, httpUrl, e, v, b);
  }

  /** Two commas in front start no file match. */
  lemma CommasNoFile(rest: string)
    requires !HasFile(rest)
    ensures !HasFile(",," + rest)
  {
    var b := ",," + rest;
    assert b[0] == ',' && b[1] == ',';
    assert b[1..] == "," + rest && b[2..] == rest;
    assert |b| >= 6 ==> b[..5][0] == ',' && b[1..][..5][0] == ',';
  }

  /** The tidy-up treats `,,` as one comma. */
  lemma TidyShrink(x: string, y: string)
    ensures Tidy(x + ",," + y) == Tidy(x + "," + y)
  {
    CollapseShrink(x, y);
  }

  /** `file=<address>,<rest>` is already tidy when the rest is. */
  lemma TidyFileRest(httpUrl: string, rest: string)
    requires ',' !in httpUrl
    requires rest != [] && rest[0] != ',' && rest[|rest| - 1] != ','
    requires NoDoubleComma(rest)
    ensures Tidy("file=" + httpUrl + "," + rest) == "file=" + httpUrl + "," + rest
  {
    var x := "file=" + httpUrl;
    var s := x + "," + rest;
    forall i | 0 <= i < |x| ensures x[i] != ',' {
      if i >= 5 { assert x[i] == httpUrl[i - 5]; }
    }
    forall i | 0 <= i < |s| - 1 ensures !(s[i] == ',' && s[i + 1] == ',') {
      if i < |x| {
        assert s[i] == x[i];
      } else if i == |x| {
        assert s[i + 1] == rest[0];
      } else {
        assert s[i] == rest[i - |x| - 1] && s[i + 1] == rest[i - |x|];
      }
    }
    assert s[|s| - 1] == rest[|rest| - 1];
    TidyIdle(s);
  }

  /** The URL between two parameters: `file=x,url=y,sub=1` is rewritten to
      `file=<served address>,sub=1`. */
  lemma ExampleMiddle(httpUrl: string)
    requires ',' !in httpUrl
    ensures RewriteParams("file=x,url=y,sub=1", UrlMatch(7, "y"), httpUrl) == "file=" + httpUrl + ",sub=1"
  {
    ExampleMiddleRemoval();
    ExampleSub();
    RewriteParamsMiddle("file=x,url=y,sub=1", UrlMatch(7, "y"), httpUrl, "x", "sub=1");
    ExampleMiddleTail(httpUrl);
  }

  lemma ExampleMiddleTail(httpUrl: string)
    ensures "file=" + httpUrl + "," + "sub=1" == "file=" + httpUrl + ",sub=1"
  {
    Regroup("file=" + httpUrl, ",", "sub=1");
    assert "," + "sub=1" == ",sub=1";
  }

  /** `sub=1` is tidy and holds no file parameter. */
  lemma ExampleSub()
    ensures NoDoubleComma("sub=1") && !HasFile("sub=1")
    ensures "sub=1" != [] && "sub=1"[0] != ',' && "sub=1"[|"sub=1"| - 1] != ','
  {
    var rest := "sub=1";
    assert !FileStart(rest) && !FileStart(rest[1..]) && !FileStart(rest[2..]);
    assert !FileStart(rest[3..]) && !FileStart(rest[4..]) && rest[5..] == [];
  }

  lemma ExampleMiddleRemoval()
    ensures ReplaceFirst("file=x,url=y,sub=1", UrlMatch(7, "y").Text(), "") == "file=" + "x" + ",," + "sub=1"
  {
    var p := "file=x,url=y,sub=1";
    assert UrlMatch(7, "y").Text() == "url=y";
    ExampleMiddleIndex();
    ExampleMiddleSlices();
    ExampleMiddleText();
  }

  lemma ExampleMiddleIndex()
    ensures IndexOf("file=x,url=y,sub=1", "url=y") == Some(7)
  {
    var p := "file=x,url=y,sub=1";
    assert p[7..12] == "url=y";
    forall j | 0 <= j < 7 ensures !OccursAt(p, "url=y", j) {
      assert p[j..j + 5][0] == p[j] != 'u';
    }
    IndexOfIs(p, "url=y", 7);
  }

  lemma ExampleMiddleSlices()
    ensures "file=x,url=y,sub=1"[..7] == "file=x," && "file=x,url=y,sub=1"[12..] == ",sub=1"
  {
  }

  lemma ExampleMiddleText()
    ensures "file=x," + "" + ",sub=1" == "file=" + "x" + ",," + "sub=1"
  {
  }

  // ---------------------------------------------------------------------
  // File names and paths

  /** `fmt.Sprintf("%s_%d_%d.png", keyword, timestamp, i)`. */
  function FileName(keyword: string, timestamp: int, i: nat): string {
    keyword + "_" + Stamp(timestamp, i)
  }

  /** The part of a file name after the keyword and its `_`. */
  function Stamp(timestamp: int, i: nat): string {
    IntToString(timestamp) + "_" + (NatToString(i) + ".png")
  }

  /** The served address of a saved file. */
  function HttpUrl(name: string): string {
    ServerBase + "/topics/" + name
  }

  /** The lexical part of `filepath.Clean` for a relative path: empty and
      `.` elements go, `..` cancels the element before it (or is kept when
      there is none to cancel). */
  function Resolve(elems: seq<string>, kept: seq<string>): seq<string>
    decreases |elems|
  {
    if elems == [] then kept
    else if elems[0] == "" || elems[0] == "." then Resolve(elems[1..], kept)
    else if elems[0] == ".." then
      if kept != [] && kept[|kept| - 1] != ".." then Resolve(elems[1..], kept[..|kept| - 1])
      else Resolve(elems[1..], kept + [".."])
    else Resolve(elems[1..], kept + [elems[0]])
  }

  /** `filepath.Clean` of a relative path. */
  function CleanRelative(path: string): string {
    var kept := Resolve(Split(path, '/'), []);
    if kept == [] then "." else Join(kept, "/")
  }

  /** `filepath.Join(TopicImageSaveDir, name)`. */
  function SavePath(name: string): string {
    CleanRelative(SaveDir + "/" + name)
  }

  /** An element that cleaning keeps as it is. */
  predicate PlainElem(e: string) {
    e != "" && e != "." && e != ".."
  }

  /** Plain elements are kept in order. */
  lemma {:induction false} ResolvePlain(elems: seq<string>, kept: seq<string>)
    requires forall k | 0 <= k < |elems| :: PlainElem(elems[k])
    ensures Resolve(elems, kept) == kept + elems
    decreases |elems|
  {
    if elems != [] {
      assert PlainElem(elems[0]);
      ResolvePlain(elems[1..], kept + [elems[0]]);
      assert kept + [elems[0]] + elems[1..] == kept + elems;
    }
  }

  /** A plain file name is saved under `images/topics/`: cleaning drops the leading `./`. */
  lemma SavePathPlain(name: string)
    requires '/' !in name && PlainElem(name)
    ensures SavePath(name) == "images/topics/" + name
  {
    SaveDirElems(name);
    SaveDirResolve(name);
    SaveDirClean(name);
  }

  /** Cleaning the save directory's elements drops the `.`. */
  lemma SaveDirResolve(name: string)
    requires PlainElem(name)
    ensures Resolve([".", "images", "topics", name], []) == ["images", "topics", name]
  {
    var elems := [".", "images", "topics", name];
    var kept := ["images", "topics", name];
    assert elems[0] == "." && elems[1..] == kept;
    assert PlainElem(kept[0]) && PlainElem(kept[1]);
    ResolvePlain(kept, []);
  }

  lemma SaveDirClean(name: string)
    ensures Join(["images", "topics", name], "/") == "images/topics/" + name
  {
    var kept := ["images", "topics", name];
    assert kept[1..][1..] == [name];
    assert Join(kept[1..], "/") == "topics/" + name;
  }

  /** The elements of the save directory joined with a plain name. */
  lemma SaveDirElems(name: string)
    requires '/' !in name
    ensures Split(SaveDir + "/" + name, '/') == [".", "images", "topics", name]
  {
    var elems := [".", "images", "topics", name];
    SaveDirJoin(name);
    assert forall p <- elems :: '/' !in p;
    SplitJoin(elems, '/');
  }

  lemma SaveDirJoin(name: string)
    ensures Join([".", "images", "topics", name], "/") == SaveDir + "/" + name
  {
    var elems := [".", "images", "topics", name];
    assert elems[1..][1..][1..] == [name];
    assert Join(elems[1..][1..], "/") == "topics" + "/" + name;
    assert Join(elems[1..], "/") == "images" + "/" + ("topics" + "/" + name);
    assert Join(elems, "/") == "." + "/" + ("images" + "/" + ("topics" + "/" + name));
    assert SaveDir == "." + "/" + "images" + "/" + "topics";
  }

  /** The digits of a time stamp never hold an underscore. */
  lemma NoUnderscoreInNumbers(t: int, i: nat)
    ensures '_' !in IntToString(t) && '_' !in NatToString(i) && '/' !in IntToString(t) && '/' !in NatToString(i)
    ensures ';' !in IntToString(t) && ';' !in NatToString(i)
  {
    var s, d := IntToString(t), NatToString(i);
    forall k | 0 <= k < |s| ensures s[k] == '-' || IsDigit(s[k]) {
      if k > 0 {
        assert s[k] == s[1..][k - 1];
      }
    }
    forall k | 0 <= k < |d| ensures IsDigit(d[k]) {
      assert d[k] in d;
    }
  }

  /** Numbers are written with digits and a sign only. */
  lemma NumbersFree(t: int, i: nat, c: char)
    requires c != '-' && !IsDigit(c)
    ensures c !in IntToString(t) && c !in NatToString(i)
  {
    var s := IntToString(t);
    forall k | 0 <= k < |s| ensures s[k] != c {
      if k > 0 {
        assert s[k] == s[1..][k - 1];
      }
    }
  }

  /** A separator that occurs in neither head fixes where two joins split. */
  lemma {:induction false} SplitUnique(a1: string, b1: string, a2: string, b2: string, c: char)
    requires c !in a1 && c !in a2
    requires a1 + [c] + b1 == a2 + [c] + b2
    ensures a1 == a2 && b1 == b2
    decreases |a1|
  {
    var s := a1 + [c] + b1;
    if a1 == [] || a2 == [] {
      assert s[0] == (a2 + [c] + b2)[0];
      assert a1 == [] && a2 == [];
      assert b1 == s[1..] == b2;
    } else {
      assert a1[0] == s[0] == a2[0];
      assert a1[1..] + [c] + b1 == s[1..] == a2[1..] + [c] + b2;
      SplitUnique(a1[1..], b1, a2[1..], b2, c);
      assert a1 == [a1[0]] + a1[1..];
      assert a2 == [a2[0]] + a2[1..];
    }
  }

  /** Different directive indices give different file names, whatever the time stamps. */
  lemma FileNameIndex(keyword: string, t1: int, t2: int, i: nat, j: nat)
    requires FileName(keyword, t1, i) == FileName(keyword, t2, j)
    ensures i == j
  {
    DropCommonPrefix(keyword + "_", Stamp(t1, i), Stamp(t2, j));
    NoUnderscoreInNumbers(t1, i);
    NoUnderscoreInNumbers(t2, j);
    SplitUnique(IntToString(t1), NatToString(i) + ".png", IntToString(t2), NatToString(j) + ".png", '_');
    DropCommonSuffix(NatToString(i), NatToString(j), ".png");
    NatToStringInjective(i, j);
  }

  lemma DropCommonPrefix(a: string, b1: string, b2: string)
    requires a + b1 == a + b2
    ensures b1 == b2
  {
    assert b1 == (a + b1)[|a|..];
    assert b2 == (a + b2)[|a|..];
  }

  lemma DropCommonSuffix(a1: string, a2: string, b: string)
    requires a1 + b == a2 + b
    ensures a1 == a2
  {
    assert a1 == (a1 + b)[..|a1|];
    assert a2 == (a2 + b)[..|a2|];
  }

  /** The file name of a keyword without `/` is plain. */
  lemma FileNamePlain(keyword: string, t: int, i: nat)
    requires '/' !in keyword
    ensures '/' !in FileName(keyword, t, i) && PlainElem(FileName(keyword, t, i))
  {
    NoUnderscoreInNumbers(t, i);
    var name := FileName(keyword, t, i);
    assert name[|name| - 4..] == ".png";
  }

  /** Different directive indices save to different paths, for a keyword without `/`. */
  lemma SavePathIndex(keyword: string, t1: int, t2: int, i: nat, j: nat)
    requires '/' !in keyword
    requires SavePath(FileName(keyword, t1, i)) == SavePath(FileName(keyword, t2, j))
    ensures i == j
  {
    FileNamePlain(keyword, t1, i);
    FileNamePlain(keyword, t2, j);
    SavePathPlain(FileName(keyword, t1, i));
    SavePathPlain(FileName(keyword, t2, j));
    var p := "images/topics/";
    assert FileName(keyword, t1, i) == SavePath(FileName(keyword, t1, i))[|p|..];
    assert FileName(keyword, t2, j) == SavePath(FileName(keyword, t2, j))[|p|..];
    FileNameIndex(keyword, t1, t2, i, j);
  }

  // ---------------------------------------------------------------------
  // Processing a message

  /** One download: the decoded image URL and the local save path. */
  datatype Fetch = Fetch(url: string, path: string)

  /** What handling a directive with a URL does: download, then replace the
      directive's text by `rewritten`. */
  datatype Job = Job(fetch: Fetch, rewritten: string)

  /** A directive of the message and its job, if its parameters hold a URL. */
  datatype Directive = Directive(text: string, job: Option<Job>)

  /** Directive `i` of a message saved under `keyword`. `clock(i)` is the
      nanosecond time read while handling it. */
  function Plan(b: Block, i: nat, keyword: string, clock: nat -> int): Directive {
    match FindUrl(b.params)
    case None => Directive(b.text, None)
    case Some(m) =>
      var name := FileName(keyword, clock(i), i);
      var fetch := Fetch(DecodeAmp(m.value), SavePath(name));
      Directive(b.text, Some(Job(fetch, BlockOpen + RewriteParams(b.params, m, HttpUrl(name)) + "]")))
  }

  function Plans(bs: seq<Block>, keyword: string, clock: nat -> int): (ds: seq<Directive>)
    ensures |ds| == |bs|
  {
    seq(|bs|, i requires 0 <= i < |bs| => Plan(bs[i], i, keyword, clock))
  }

  /** For a keyword without `$` each directive is rewritten exactly as the
      template expansion of the code does it. */
  lemma PlanAsWritten(b: Block, i: nat, keyword: string, clock: nat -> int)
    requires '$' !in keyword
    ensures var d := Plan(b, i, keyword, clock);
      d.job.Some? ==>
        d.job.value.rewritten
          == BlockOpen + RewriteParamsAsWritten(b.params, FindUrl(b.params).value, HttpUrl(FileName(keyword, clock(i), i))) + "]"
  {
    if FindUrl(b.params).Some? {
      NumbersFree(clock(i), i, '$');
      AsWrittenAgrees(b.params, FindUrl(b.params).value, HttpUrl(FileName(keyword, clock(i), i)));
    }
  }

  /** The loop's state: the content rewritten so far, the saved paths, every
      download asked for, and whether one failed. */
  datatype Progress = Progress(content: string, paths: seq<string>, fetched: seq<Fetch>, failed: bool)

  /** One turn of the loop. A directive without a URL is skipped. */
  function Step(p: Progress, d: Directive, download: (string, string) -> bool): Progress {
    if p.failed || d.job.None? then p
    else
      var f := d.job.value.fetch;
      if !download(f.url, f.path) then Progress(p.content, p.paths, p.fetched + [f], true)
      else Progress(ReplaceFirst(p.content, d.text, d.job.value.rewritten), p.paths + [f.path], p.fetched + [f], false)
  }

  /** The state after the first `n` directives. */
  function Run(content: string, ds: seq<Directive>, n: nat, download: (string, string) -> bool): Progress
    requires n <= |ds|
  {
    if n == 0 then Progress(content, [], [], false)
    else Step(Run(content, ds, n - 1, download), ds[n - 1], download)
  }

  /** What `processTopicImagesInContent` returns: the rewritten content and
      the `;`-joined save paths, or the download error. */
  datatype Processed = Processed(content: string, paths: string) | DownloadFailed

  function Process(content: string, keyword: string, clock: nat -> int,
                   download: (string, string) -> bool): Processed
  {
    var bs := Blocks(content);
    if bs == [] then Processed(content, "")
    else
      var p := Run(content, Plans(bs, keyword, clock), |bs|, download);
      if p.failed then DownloadFailed else Processed(p.content, Join(p.paths, ";"))
  }

  /** `processTopicImagesInContent`: downloads the image of every directive
      that names a URL, in order, and points the directive at the saved copy;
      the first failed download abandons the whole message. */
  method ProcessImages(content: string, keyword: string, clock: nat -> int,
                       download: (string, string) -> bool)
    returns (r: Processed, fetched: seq<Fetch>)
    ensures r == Process(content, keyword, clock, download)
    ensures fetched == Run(content, Plans(Blocks(content), keyword, clock), |Blocks(content)|, download).fetched
  {
    var bs := Blocks(content);
    if |bs| == 0 {
      return Processed(content, ""), [];
    }
    var modified, paths, failed;
    modified, paths, fetched, failed := RewriteBlocks(content, bs, keyword, clock, download);
    ProcessFromRun(content, keyword, clock, download);
    if failed {
      return DownloadFailed, fetched;
    }
    r := Processed(modified, Join(paths, ";"));
  }

  /** The loop of `processTopicImagesInContent` over the directives `bs` of
      `content`: it stops at the first failed download. */
  method RewriteBlocks(content: string, bs: seq<Block>, keyword: string, clock: nat -> int,
                       download: (string, string) -> bool)
    returns (modified: string, paths: seq<string>, fetched: seq<Fetch>, failed: bool)
    ensures Run(content, Plans(bs, keyword, clock), |bs|, download) == Progress(modified, paths, fetched, failed)
  {
    ghost var ds := Plans(bs, keyword, clock);
    modified, paths, fetched, failed := content, [], [], false;
    for i := 0 to |bs|
      invariant Run(content, ds, i, download) == Progress(modified, paths, fetched, false)
    {
      var m := FindUrl(bs[i].params);
      PlanCases(bs, i, keyword, clock);
      if m.None? {
        RunSkips(content, ds, i, download);
        continue;
      }
      RunFetches(content, ds, i, download);
      var url := DecodeAmp(m.value.value);
      var name := FileName(keyword, clock(i), i);
      var savePath := SavePath(name);
      fetched := fetched + [Fetch(url, savePath)];
      if !download(url, savePath) {
        RunStaysFailed(content, ds, i + 1, |bs|, download);
        failed := true;
        return;
      }
      paths := paths + [savePath];
      var newParams := RewriteParams(bs[i].params, m.value, HttpUrl(name));
      modified := ReplaceFirst(modified, bs[i].text, BlockOpen + newParams + "]");
    }
  }

  /** A directive without a URL leaves the run as it was. */
  lemma RunSkips(content: string, ds: seq<Directive>, i: nat, download: (string, string) -> bool)
    requires i < |ds| && ds[i].job.None?
    ensures Run(content, ds, i + 1, download) == Run(content, ds, i, download)
  {
  }

  /** A directive with a URL, reached before any failure, asks for its
      download and, if that succeeds, records the path and rewrites the text. */
  lemma RunFetches(content: string, ds: seq<Directive>, i: nat, download: (string, string) -> bool)
    requires i < |ds| && ds[i].job.Some? && !Run(content, ds, i, download).failed
    ensures var p, j := Run(content, ds, i, download), ds[i].job.value;
      Run(content, ds, i + 1, download) ==
        if download(j.fetch.url, j.fetch.path)
        then Progress(ReplaceFirst(p.content, ds[i].text, j.rewritten), p.paths + [j.fetch.path], p.fetched + [j.fetch], false)
        else Progress(p.content, p.paths, p.fetched + [j.fetch], true)
  {
  }

  /** `Process` in terms of the run over all directives. */
  lemma ProcessFromRun(content: string, keyword: string, clock: nat -> int, download: (string, string) -> bool)
    requires Blocks(content) != []
    ensures var p := Run(content, Plans(Blocks(content), keyword, clock), |Blocks(content)|, download);
      Process(content, keyword, clock, download) == if p.failed then DownloadFailed else Processed(p.content, Join(p.paths, ";"))
  {
  }

  /** Directive `i` of a message, spelt out. */
  lemma PlanCases(bs: seq<Block>, i: nat, keyword: string, clock: nat -> int)
    requires i < |bs|
    ensures FindUrl(bs[i].params).None? ==> Plans(bs, keyword, clock)[i] == Directive(bs[i].text, None)
    ensures FindUrl(bs[i].params).Some? ==>
      var m := FindUrl(bs[i].params).value;
      var name := FileName(keyword, clock(i), i);
      Plans(bs, keyword, clock)[i] == Directive(bs[i].text, Some(Job(Fetch(DecodeAmp(m.value), SavePath(name)),
                                                               BlockOpen + RewriteParams(bs[i].params, m, HttpUrl(name)) + "]")))
  {
    assert Plans(bs, keyword, clock)[i] == Plan(bs[i], i, keyword, clock);
  }

  /** Once a download has failed, later directives change nothing. */
  lemma {:induction false} RunStaysFailed(content: string, ds: seq<Directive>, i: nat, n: nat,
                                          download: (string, string) -> bool)
    requires i <= n <= |ds|
    requires Run(content, ds, i, download).failed
    ensures Run(content, ds, n, download) == Run(content, ds, i, download)
    decreases n
  {
    if n > i {
      RunStaysFailed(content, ds, i, n - 1, download);
    }
  }

  // ---------------------------------------------------------------------
  // What processing does, directive by directive

  /** The downloads the first `n` directives ask for, in order. */
  function Requests(ds: seq<Directive>, n: nat): seq<Fetch>
    requires n <= |ds|
  {
    if n == 0 then []
    else if ds[n - 1].job.None? then Requests(ds, n - 1)
    else Requests(ds, n - 1) + [ds[n - 1].job.value.fetch]
  }

  /** Directive `j` asks for a download, and that download fails. */
  predicate FailsAt(ds: seq<Directive>, j: nat, download: (string, string) -> bool)
    requires j < |ds|
  {
    ds[j].job.Some? && !download(ds[j].job.value.fetch.url, ds[j].job.value.fetch.path)
  }

  /** The save paths of some downloads. */
  function Paths(fs: seq<Fetch>): (ps: seq<string>)
    ensures |ps| == |fs| && forall k :: 0 <= k < |fs| ==> ps[k] == fs[k].path
  {
    seq(|fs|, k requires 0 <= k < |fs| => fs[k].path)
  }

  /** The loop fails exactly when some directive's download fails; until then
      it asks for every request in order and records every save path; on a
      failure it has asked for the requests up to and including the first
      failing one, and for no later one. */
  lemma {:induction false} RunTrace(content: string, ds: seq<Directive>, n: nat,
                                    download: (string, string) -> bool)
    requires n <= |ds|
    ensures !Run(content, ds, n, download).failed <==> forall j :: 0 <= j < n ==> !FailsAt(ds, j, download)
    ensures !Run(content, ds, n, download).failed ==>
      && Run(content, ds, n, download).fetched == Requests(ds, n)
      && Run(content, ds, n, download).paths == Paths(Requests(ds, n))
    ensures Run(content, ds, n, download).failed ==>
      exists j :: 0 <= j < n && FailsAt(ds, j, download)
        && (forall k :: 0 <= k < j ==> !FailsAt(ds, k, download))
        && Run(content, ds, n, download).fetched == Requests(ds, j + 1)
    decreases n
  {
    if n > 0 {
      RunTrace(content, ds, n - 1, download);
      var q := Run(content, ds, n - 1, download);
      if q.failed {
        RunStaysFailed(content, ds, n - 1, n, download);
      } else if ds[n - 1].job.None? {
        RunSkips(content, ds, n - 1, download);
      } else {
        RunFetches(content, ds, n - 1, download);
        var f := ds[n - 1].job.value.fetch;
        assert Requests(ds, n) == Requests(ds, n - 1) + [f];
        if !FailsAt(ds, n - 1, download) {
          assert Paths(Requests(ds, n)) == Paths(Requests(ds, n - 1)) + [f.path];
        }
      }
    }
  }

  /** Request `k` of a run is the download of some directive before the `n`th. */
  lemma {:induction false} RequestIndex(ds: seq<Directive>, n: nat, k: nat) returns (j: nat)
    requires n <= |ds| && k < |Requests(ds, n)|
    ensures j < n && ds[j].job.Some? && ds[j].job.value.fetch == Requests(ds, n)[k]
    decreases n
  {
    var before := Requests(ds, n - 1);
    if k < |before| {
      j := RequestIndex(ds, n - 1, k);
      assert Requests(ds, n)[k] == before[k];
    } else {
      j := n - 1;
    }
  }


  /** The save path of each directive names its index. */
  lemma PlansPaths(bs: seq<Block>, keyword: string, clock: nat -> int)
    ensures forall j :: 0 <= j < |bs| && Plans(bs, keyword, clock)[j].job.Some? ==>
      Plans(bs, keyword, clock)[j].job.value.fetch.path == SavePath(FileName(keyword, clock(j), j))
  {
    var ds := Plans(bs, keyword, clock);
    forall j | 0 <= j < |bs| && ds[j].job.Some?
      ensures ds[j].job.value.fetch.path == SavePath(FileName(keyword, clock(j), j))
    {
      assert ds[j] == Plan(bs[j], j, keyword, clock);
    }
  }

  /** No two directives with a job save to the same path. */
  ghost predicate DistinctPaths(ds: seq<Directive>) {
    forall a, b :: 0 <= a < b < |ds| && ds[a].job.Some? && ds[b].job.Some? ==>
      ds[a].job.value.fetch.path != ds[b].job.value.fetch.path
  }

  /** For a keyword without `/`, the directives of a message save to
      different paths: each path names its directive's index. */
  lemma PlansDistinctPaths(bs: seq<Block>, keyword: string, clock: nat -> int)
    requires '/' !in keyword
    ensures DistinctPaths(Plans(bs, keyword, clock))
  {
    var ds := Plans(bs, keyword, clock);
    PlansPaths(bs, keyword, clock);
    forall a, b | 0 <= a < b < |ds| && ds[a].job.Some? && ds[b].job.Some?
      ensures ds[a].job.value.fetch.path != ds[b].job.value.fetch.path
    {
      if ds[a].job.value.fetch.path == ds[b].job.value.fetch.path {
        SavePathIndex(keyword, clock(a), clock(b), a, b);
      }
    }
  }

  /** No two downloads a run asks for share a save path, so no saved image
      overwrites another. */
  lemma {:induction false} RequestPathsDistinct(ds: seq<Directive>, n: nat)
    requires n <= |ds| && DistinctPaths(ds)
    ensures forall a, b :: 0 <= a < b < |Requests(ds, n)| ==> Requests(ds, n)[a].path != Requests(ds, n)[b].path
    decreases n
  {
    if n > 0 {
      RequestPathsDistinct(ds, n - 1);
      var before := Requests(ds, n - 1);
      if ds[n - 1].job.Some? {
        var f := ds[n - 1].job.value.fetch;
        assert Requests(ds, n) == before + [f];
        forall a | 0 <= a < |before|
          ensures before[a].path != f.path
        {
          var j := RequestIndex(ds, n - 1, a);
          assert ds[j].job.value.fetch.path != ds[n - 1].job.value.fetch.path;
        }
      }
    }
  }


  // ---------------------------------------------------------------------
  // What processing promises

  /** Processing fails exactly when the download of some directive fails. */
  lemma ProcessFails(content: string, keyword: string, clock: nat -> int, download: (string, string) -> bool)
    ensures Process(content, keyword, clock, download) == DownloadFailed
      <==> exists j :: 0 <= j < |Blocks(content)| && FailsAt(Plans(Blocks(content), keyword, clock), j, download)
  {
    var bs := Blocks(content);
    if bs != [] {
      ProcessFromRun(content, keyword, clock, download);
      RunTrace(content, Plans(bs, keyword, clock), |bs|, download);
    }
  }

  /** On success the returned paths are the save paths of every directive
      with a URL, in order, joined with `;`. */
  lemma ProcessPaths(content: string, keyword: string, clock: nat -> int, download: (string, string) -> bool)
    requires Process(content, keyword, clock, download).Processed?
    ensures var bs := Blocks(content);
      Process(content, keyword, clock, download).paths == Join(Paths(Requests(Plans(bs, keyword, clock), |bs|)), ";")
  {
    var bs := Blocks(content);
    if bs != [] {
      ProcessFromRun(content, keyword, clock, download);
      RunTrace(content, Plans(bs, keyword, clock), |bs|, download);
    }
  }

  /** A message without an image directive comes back as it is, with no paths. */
  lemma NoDirectiveUnchanged(content: string, keyword: string, clock: nat -> int, download: (string, string) -> bool)
    requires forall i :: !OccursAt(content, BlockOpen, i)
    ensures Process(content, keyword, clock, download) == Processed(content, "")
  {
    NoOpenNoBlocks(content);
  }

  /** Directives without a URL are left alone: if none has one, nothing is
      downloaded and the content comes back as it is. */
  lemma NoUrlUnchanged(content: string, keyword: string, clock: nat -> int, download: (string, string) -> bool)
    requires forall b <- Blocks(content) :: FindUrl(b.params).None?
    ensures Process(content, keyword, clock, download) == Processed(content, "")
    ensures Run(content, Plans(Blocks(content), keyword, clock), |Blocks(content)|, download).fetched == []
  {
    var bs := Blocks(content);
    var ds := Plans(bs, keyword, clock);
    forall j | 0 <= j < |bs| ensures ds[j].job.None? {
      assert bs[j] in bs;
      assert ds[j] == Plan(bs[j], j, keyword, clock);
    }
    UntouchedRun(content, ds, |bs|, download);
    if bs != [] {
      ProcessFromRun(content, keyword, clock, download);
    }
  }

  lemma {:induction false} UntouchedRun(content: string, ds: seq<Directive>, n: nat, download: (string, string) -> bool)
    requires n <= |ds|
    requires forall j :: 0 <= j < n ==> ds[j].job.None?
    ensures Run(content, ds, n, download) == Progress(content, [], [], false)
    decreases n
  {
    if n > 0 {
      UntouchedRun(content, ds, n - 1, download);
    }
  }

  /** For a keyword without `/` or `;`, the returned paths split back into
      the save paths, and no two of them are the same. */
  lemma ProcessPathsSplit(content: string, keyword: string, clock: nat -> int, download: (string, string) -> bool)
    requires '/' !in keyword && ';' !in keyword
    requires Process(content, keyword, clock, download).Processed?
    requires var bs := Blocks(content); Requests(Plans(bs, keyword, clock), |bs|) != []
    ensures var bs := Blocks(content);
      var ps := Paths(Requests(Plans(bs, keyword, clock), |bs|));
      && Split(Process(content, keyword, clock, download).paths, ';') == ps
      && forall a, b :: 0 <= a < b < |ps| ==> ps[a] != ps[b]
  {
    var bs := Blocks(content);
    var ds := Plans(bs, keyword, clock);
    var rs := Requests(ds, |bs|);
    ProcessPaths(content, keyword, clock, download);
    PlansPaths(bs, keyword, clock);
    PlansDistinctPaths(bs, keyword, clock);
    RequestPathsDistinct(ds, |bs|);
    var ps := Paths(rs);
    forall p <- ps ensures ';' !in p {
      var k :| 0 <= k < |ps| && ps[k] == p;
      var j := RequestIndex(ds, |bs|, k);
      SavePathNoSemicolon(keyword, clock(j), j);
    }
    SplitJoin(ps, ';');
  }

  /** A save path holds a `;` only if the keyword does. */
  lemma SavePathNoSemicolon(keyword: string, t: int, i: nat)
    requires '/' !in keyword && ';' !in keyword
    ensures ';' !in SavePath(FileName(keyword, t, i))
  {
    var name := FileName(keyword, t, i);
    FileNamePlain(keyword, t, i);
    SavePathPlain(name);
    FileNameFree(keyword, t, i, ';');
    var dir := "images/topics/";
    assert ';' !in dir;
    assert forall k | 0 <= k < |dir + name| :: (dir + name)[k] in dir || (dir + name)[k] in name;
  }

  /** A character that is not in the keyword, and is neither a digit, a
      sign, `_`, `.`, `p`, `n` nor `g`, is not in its file names. */
  lemma FileNameFree(keyword: string, t: int, i: nat, c: char)
    requires c !in keyword && c !in "-_.png" && !IsDigit(c)
    ensures c !in FileName(keyword, t, i)
  {
    NumbersFree(t, i, c);
    var name := FileName(keyword, t, i);
    assert name == keyword + "_" + IntToString(t) + "_" + NatToString(i) + ".png";
  }

  // ---------------------------------------------------------------------
  // `$` in the file replacement, as written

  /** A character Go's template expansion takes into a reference name. */
  predicate IsNameChar(c: char) {
    'a' <= c <= 'z' || 'A' <= c <= 'Z' || '0' <= c <= '9' || c == '_'
  }

  /** The length of the run of name characters at the start of `s`. */
  function NameLen(s: string): (n: nat)
    ensures n <= |s|
    decreases |s|
  {
    if s != [] && IsNameChar(s[0]) then 1 + NameLen(s[1..]) else 0
  }

  /** The reference right after a `$` (`name` or `{name}`): the name and
      how many characters the reference spans; `None` when it is malformed. */
  function Reference(s: string): (r: Option<(string, nat)>)
    ensures r.Some? ==> 1 <= r.value.1 <= |s|
  {
    if s != [] && s[0] == '{' then
      var n := NameLen(s[1..]);
      if n == 0 || 1 + n >= |s| || s[1 + n] != '}' then None
      else Some((s[1..1 + n], n + 2))
    else
      var n := NameLen(s);
      if n == 0 then None else Some((s[..n], n))
  }

  /** The template expansion `ReplaceAllString` applies to its replacement,
      for a pattern without groups: `$$` is a `$`, a reference to group 0 is
      the whole match, any other well-formed reference is empty, and a `$`
      that starts no reference stays. */
  function Expand(t: string, whole: string): string
    decreases |t|
  {
    if t == [] then []
    else if t[0] != '$' then [t[0]] + Expand(t[1..], whole)
    else if |t| >= 2 && t[1] == '$' then "$" + Expand(t[2..], whole)
    else match Reference(t[1..])
      case None => "$" + Expand(t[1..], whole)
      case Some((name, len)) => (if name == "0" then whole else "") + Expand(t[1 + len..], whole)
  }

  /** A template without `$` expands to itself. */
  lemma {:induction false} ExpandPlain(t: string, whole: string)
    requires '$' !in t
    ensures Expand(t, whole) == t
    decreases |t|
  {
    if t != [] {
      ExpandPlain(t[1..], whole);
      assert [t[0]] + t[1..] == t;
    }
  }

  /** A run of name characters is measured whole. */
  lemma {:induction false} NameLenOf(name: string, rest: string)
    requires forall c <- name :: IsNameChar(c)
    requires rest == [] || !IsNameChar(rest[0])
    ensures NameLen(name + rest) == |name|
    decreases |name|
  {
    if name == [] {
      assert name + rest == rest;
    } else {
      assert (name + rest)[1..] == name[1..] + rest;
      assert forall c <- name[1..] :: c in name;
      NameLenOf(name[1..], rest);
    }
  }

  /** A reference by a name other than `0` names a group the pattern lacks,
      so it expands to nothing. */
  lemma ExpandDropsGroup(name: string, rest: string, whole: string)
    requires |name| >= 1 && name != "0" && forall c <- name :: IsNameChar(c)
    requires rest == [] || !IsNameChar(rest[0])
    ensures Expand("$" + name + rest, whole) == Expand(rest, whole)
  {
    var t := "$" + name + rest;
    NameLenOf(name, rest);
    assert name[0] in name;
    assert t[1..] == name + rest && t[1] == name[0] != '$';
    assert (name + rest)[..|name|] == name;
    assert t[1 + |name|..] == rest;
  }

  /** A `$`-free head is copied and the rest expanded. */
  lemma {:induction false} ExpandLiteralHead(head: string, rest: string, whole: string)
    requires '$' !in head
    ensures Expand(head + rest, whole) == head + Expand(rest, whole)
    decreases |head|
  {
    if head != [] {
      ExpandLiteralHead(head[1..], rest, whole);
      assert (head + rest)[0] == head[0] && (head + rest)[1..] == head[1..] + rest;
      assert [head[0]] + head[1..] == head;
    } else {
      assert head + rest == rest;
    }
  }

  /** The params as the code builds them: the file replacement goes through
      template expansion. */
  function RewriteParamsAsWritten(params: string, m: UrlMatch, httpUrl: string): string {
    var removed := ReplaceFirst(params, m.Text(), "");
    var template := "file=" + httpUrl;
    if HasFile(removed) then Tidy(ReplaceFiles(removed, whole => Expand(template, whole)))
    else Tidy(template + "," + removed)
  }

  /** With a `$`-free template, expanding it in every match is literal replacement. */
  lemma {:induction false} ReplaceFilesPlain(s: string, template: string)
    requires '$' !in template
    ensures ReplaceFiles(s, whole => Expand(template, whole)) == ReplaceFiles(s, _ => template)
    decreases |s|
  {
    if s != [] {
      if FileStart(s) {
        var n := FileMatchLen(s);
        ExpandPlain(template, s[..n]);
        ReplaceFilesPlain(s[n..], template);
      } else {
        ReplaceFilesPlain(s[1..], template);
      }
    }
  }

  /** Without `$` in the served address, the code does what is intended. */
  lemma AsWrittenAgrees(params: string, m: UrlMatch, httpUrl: string)
    requires '$' !in httpUrl
    ensures RewriteParamsAsWritten(params, m, httpUrl) == RewriteParams(params, m, httpUrl)
  {
    var removed := ReplaceFirst(params, m.Text(), "");
    assert '$' !in "file=" + httpUrl;
    ReplaceFilesPlain(removed, "file=" + httpUrl);
  }

  /** The first place the URL pattern matches is the URL match. */
  lemma FindUrlAt(p: string, i: nat)
    requires UrlAt(p, i) && forall j :: 0 <= j < i ==> !UrlAt(p, j)
    ensures FindUrl(p) == Some(UrlMatch(i, UntilComma(p[i + 4..])))
  {
    FindUrlLeftmost(p, 0);
  }

  /** A comma-free text with one trailing comma tidies back to itself. */
  lemma TidyTrailingComma(x: string)
    requires x != [] && ',' !in x
    ensures Tidy(x + ",") == x
  {
    CollapseCommaFree(x, ",");
    CollapseIdle(",");
    var c := x + ",";
    assert CollapseCommas(c) == c;
    assert c[0] == x[0] && c[|c| - 1] == ',';
    assert TrimLeft(c, IsComma) == c;
    assert c[..|c| - 1] == x;
    assert TrimRight(c, IsComma) == TrimRight(x, IsComma);
    assert x[|x| - 1] in x;
    assert TrimRight(x, IsComma) == x;
  }

  /** The params `file=x,url=y`: the URL match and what removing it leaves. */
  lemma ExampleUrl()
    ensures FindUrl("file=x,url=y") == Some(UrlMatch(7, "y"))
    ensures ReplaceFirst("file=x,url=y", "url=y", "") == "file=x,"
  {
    var p := "file=x,url=y";
    ExampleFindUrl();
    UrlRemoval(p);
    assert UrlMatch(7, "y").Text() == "url=y";
    assert p[..7] + p[12..] == "file=x,";
  }

  lemma ExampleFindUrl()
    ensures FindUrl("file=x,url=y") == Some(UrlMatch(7, "y"))
  {
    var p := "file=x,url=y";
    assert UrlAt(p, 7) by {
      assert p[7..11] == "url=";
    }
    forall j | 0 <= j < 7 ensures !UrlAt(p, j) {
      assert p[j..j + 4][0] == p[j] != 'u';
    }
    assert UntilComma(p[11..]) == "y" by {
      assert p[11..] == "y";
    }
    FindUrlAt(p, 7);
  }

  /** `file=x,` holds one file match, `file=x`. */
  lemma ExampleFile(replace: string -> string)
    ensures HasFile("file=x,")
    ensures ReplaceFiles("file=x,", replace) == replace("file=x") + ","
  {
    var s := "file=x,";
    assert s[..5] == "file=" && FileStart(s);
    assert s[5..] == "x," && UntilComma("x,") == "x";
    assert FileMatchLen(s) == 6;
    assert s[..6] == "file=x" && s[6..] == ",";
    assert ReplaceFiles(",", replace) == ",";
  }

  /** The file name of directive 0 of a message saved under `a$b` at time 1. */
  lemma ExampleName()
    ensures FileName("a$b", 1, 0) == "a$b_1_0.png"
  {
    assert IntToString(1) == "1";
    assert NatToString(0) == "0";
  }

  /** Expanding `...topics/a$b_1_0.png` reads `$b_1_0` as a reference to a
      group the pattern lacks, and drops it. */
  lemma ExampleExpand(whole: string)
    ensures Expand("file=" + HttpUrl("a$b_1_0.png"), whole) == "file=" + HttpUrl("a.png")
  {
    var head := "file=" + ServerBase + "/topics/a";
    ExampleSplit();
    ExpandLiteralHead(head, "$b_1_0.png", whole);
    ExampleTail(whole);
  }

  lemma ExampleSplit()
    ensures "file=" + HttpUrl("a$b_1_0.png") == ("file=" + ServerBase + "/topics/a") + "$b_1_0.png"
    ensures "file=" + HttpUrl("a.png") == ("file=" + ServerBase + "/topics/a") + ".png"
    ensures '$' !in "file=" + ServerBase + "/topics/a"
  {
  }

  lemma ExampleTail(whole: string)
    ensures Expand("$b_1_0.png", whole) == ".png"
  {
    ExpandDropsGroup("b_1_0", ".png", whole);
    ExampleTailText();
    ExpandPlain(".png", whole);
  }

  lemma ExampleTailText()
    ensures "$" + "b_1_0" + ".png" == "$b_1_0.png"
  {
  }

  /** A keyword with a `$`: the image is saved as `a$b_1_0.png`, the intended
      directive names that file, but the code's directive names `a.png`. */
  lemma DollarInKeyword()
    ensures FindUrl("file=x,url=y") == Some(UrlMatch(7, "y"))
    ensures SavePath(FileName("a$b", 1, 0)) == "images/topics/a$b_1_0.png"
    ensures RewriteParams("file=x,url=y", UrlMatch(7, "y"), HttpUrl(FileName("a$b", 1, 0)))
      == "file=" + HttpUrl("a$b_1_0.png")
    ensures RewriteParamsAsWritten("file=x,url=y", UrlMatch(7, "y"), HttpUrl(FileName("a$b", 1, 0)))
      == "file=" + HttpUrl("a.png")
  {
    ExampleUrl();
    ExampleName();
    ExampleSaved();
    ExampleIntended();
    ExampleAsWritten();
  }

  lemma ExampleSaved()
    ensures SavePath("a$b_1_0.png") == "images/topics/a$b_1_0.png"
  {
    var name := "a$b_1_0.png";
    assert '/' !in name && PlainElem(name);
    SavePathPlain(name);
  }

  lemma ExampleNoComma()
    ensures ',' !in "file=" + HttpUrl("a$b_1_0.png") && ',' !in "file=" + HttpUrl("a.png")
  {
  }

  lemma ExampleIntended()
    ensures RewriteParams("file=x,url=y", UrlMatch(7, "y"), HttpUrl("a$b_1_0.png")) == "file=" + HttpUrl("a$b_1_0.png")
  {
    ExampleUrl();
    var template := "file=" + HttpUrl("a$b_1_0.png");
    assert UrlMatch(7, "y").Text() == "url=y";
    ExampleFile(_ => template);
    ExampleNoComma();
    TidyTrailingComma(template);
  }

  lemma ExampleAsWritten()
    ensures RewriteParamsAsWritten("file=x,url=y", UrlMatch(7, "y"), HttpUrl("a$b_1_0.png")) == "file=" + HttpUrl("a.png")
  {
    ExampleUrl();
    var template := "file=" + HttpUrl("a$b_1_0.png");
    assert UrlMatch(7, "y").Text() == "url=y";
    ExampleFile(whole => Expand(template, whole));
    ExampleExpand("file=x");
    ExampleNoComma();
    TidyTrailingComma("file=" + HttpUrl("a.png"));
  }
}
