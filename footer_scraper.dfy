/**
 * The footer scraper: `scrape_footer` turns the texts of the `div` elements
 * under a page's first `<footer>` into an ordered list of distinct, trimmed
 * fragments, and `collect_footers` gathers those lists per URL into a
 * dictionary.
 *
 * The HTML side is an input: `None` for a page without a footer, otherwise
 * the footer's div texts in document order. The per-URL scrape inside
 * `collect_footers` is an oracle `scrape(i, url)` giving the outcome of the
 * i-th call, so the same URL may fare differently on different calls.
 */
module FooterScraper {
  import opened Wrappers
  import opened PyStr

  /** What one call of `scrape_footer` ends with. */
  datatype ScrapeOutcome =
    | Scraped(fragments: seq<string>)  // the returned list
    | NoFooter                         // `AttributeError`: the page has no footer
    | OtherFault                       // any other exception (transport, parsing, ...)

  // ---------------------------------------------------------------------------
  // Fragments of one footer
  // ---------------------------------------------------------------------------

  /** No string occurs twice. */
  predicate Distinct(list: seq<string>)
  {
    forall k, m :: 0 <= k < m < |list| ==> list[k] != list[m]
  }

  /** A list `scrape_footer` can return: distinct, trimmed entries longer than one character. */
  predicate Clean(list: seq<string>)
  {
    Distinct(list) && forall k :: 0 <= k < |list| ==> |list[k]| > 1 && Trimmed(list[k])
  }

  /** The piece `p`, once stripped, is the fragment `x` and is worth keeping. */
  predicate Keeps(p: string, x: string)
  {
    Strip(p) == x && |x| > 1
  }

  lemma CleanAppend(list: seq<string>, t: string)
    requires Clean(list) && t !in list && |t| > 1 && Trimmed(t)
    ensures Clean(list + [t])
  {
    var l := list + [t];
    forall k, m | 0 <= k < m < |l| ensures l[k] != l[m] {
      if m == |list| {
        assert l[k] == list[k];
      }
    }
  }

  /**
   * One pass of the innermost loop: the stripped piece is appended when it
   * is not in the list yet and is longer than one character.
   */
  function Add(acc: seq<string>, piece: string): (r: seq<string>)
    ensures acc <= r && |r| <= |acc| + 1
  {
    var t := Strip(piece);
    if t !in acc then
      if |t| > 1 then acc + [t] else acc
    else acc
  }

  /** The list after `Add` has seen every piece of `pieces`, in order. */
  function Absorb(acc: seq<string>, pieces: seq<string>): (r: seq<string>)
    ensures acc <= r && |r| <= |acc| + |pieces|
    decreases |pieces|
  {
    if pieces == [] then acc
    else Add(Absorb(acc, pieces[..|pieces| - 1]), pieces[|pieces| - 1])
  }

  /** Appending only trimmed, new strings longer than one character keeps a list clean. */
  lemma {:induction false} AbsorbClean(acc: seq<string>, pieces: seq<string>)
    requires Clean(acc)
    ensures Clean(Absorb(acc, pieces))
    decreases |pieces|
  {
    if pieces != [] {
      var prev := Absorb(acc, pieces[..|pieces| - 1]);
      AbsorbClean(acc, pieces[..|pieces| - 1]);
      var t := Strip(pieces[|pieces| - 1]);
      if t !in prev && |t| > 1 {
        CleanAppend(prev, t);
      }
    }
  }

  /** A string ends up in the list exactly when it was there or some piece keeps it. */
  lemma {:induction false} AbsorbMembership(acc: seq<string>, pieces: seq<string>, x: string)
    ensures x in Absorb(acc, pieces) <==> x in acc || exists p :: p in pieces && Keeps(p, x)
    decreases |pieces|
  {
    if pieces != [] {
      var init := pieces[..|pieces| - 1];
      var last := pieces[|pieces| - 1];
      var prev := Absorb(acc, init);
      AbsorbMembership(acc, init, x);
      assert pieces == init + [last];
      assert x in Absorb(acc, pieces) <==> x in prev || Keeps(last, x);
      if exists p :: p in pieces && Keeps(p, x) {
        var p :| p in pieces && Keeps(p, x);
        if p != last {
          assert p in init;
        }
      }
    }
  }

  /** A trimmed string longer than one character that is not in the list yet is appended. */
  lemma AddNew(acc: seq<string>, t: string)
    requires Trimmed(t) && |t| > 1 && t !in acc
    ensures Add(acc, t) == acc + [t]
  {
    StripTrimmed(t);
  }

  /**
   * Pieces that are already distinct, trimmed, longer than one character and
   * new to the list are appended verbatim and in order.
   */
  lemma {:induction false} AbsorbFresh(acc: seq<string>, ps: seq<string>)
    requires Distinct(ps)
    requires forall k :: 0 <= k < |ps| ==> |ps[k]| > 1 && Trimmed(ps[k]) && ps[k] !in acc
    ensures Absorb(acc, ps) == acc + ps
    decreases |ps|
  {
    if ps != [] {
      var n := |ps| - 1;
      var init := ps[..n];
      var last := ps[n];
      assert forall k :: 0 <= k < n ==> init[k] == ps[k];
      AbsorbFresh(acc, init);
      assert last !in acc + init by {
        forall k | 0 <= k < n ensures init[k] != last {
          assert init[k] == ps[k];
        }
      }
      AddNew(acc + init, last);
      assert Absorb(acc, ps) == Add(Absorb(acc, init), last);
      assert ps == init + [last];
    }
  }

  lemma AbsorbStep(acc: seq<string>, pieces: seq<string>, k: nat)
    requires k < |pieces|
    ensures Absorb(acc, pieces[..k + 1]) == Add(Absorb(acc, pieces[..k]), pieces[k])
  {
    assert pieces[..k + 1][..k] == pieces[..k];
  }

  lemma {:induction false} AbsorbAppend(acc: seq<string>, a: seq<string>, b: seq<string>)
    ensures Absorb(acc, a + b) == Absorb(Absorb(acc, a), b)
    decreases |b|
  {
    if b != [] {
      var b' := b[..|b| - 1];
      assert (a + b)[..|a + b| - 1] == a + b';
      AbsorbAppend(acc, a, b');
    } else {
      assert a + b == a;
    }
  }

  /** The lines split on `sep`, all pieces in one sequence. */
  function SplitEach(lines: seq<string>, sep: char): (r: seq<string>)
    ensures |r| >= |lines|
    ensures forall p :: p in r ==> sep !in p
    decreases |lines|
  {
    if lines == [] then []
    else SplitEach(lines[..|lines| - 1], sep) + Split(lines[|lines| - 1], sep)
  }

  lemma SplitEachStep(lines: seq<string>, sep: char, j: nat)
    requires j < |lines|
    ensures SplitEach(lines[..j + 1], sep) == SplitEach(lines[..j], sep) + Split(lines[j], sep)
  {
    assert lines[..j + 1][..j] == lines[..j];
  }

  lemma {:induction false} SplitEachMembership(lines: seq<string>, sep: char, p: string)
    ensures p in SplitEach(lines, sep) <==> exists line :: line in lines && p in Split(line, sep)
    decreases |lines|
  {
    if lines != [] {
      var init := lines[..|lines| - 1];
      var last := lines[|lines| - 1];
      SplitEachMembership(init, sep, p);
      assert lines == init + [last];
      if p in Split(last, sep) {
        assert last in lines;
      }
      if exists line :: line in lines && p in Split(line, sep) {
        var line :| line in lines && p in Split(line, sep);
        if line != last {
          assert line in init;
        }
      }
    }
  }

  /**
   * The pieces a div text offers: nothing when the text is empty, otherwise
   * its strip cut at every line feed and each part cut again at every
   * carriage return.
   */
  function Pieces(text: string): (r: seq<string>)
    ensures |text| == 0 <==> r == []
    ensures forall p :: p in r ==> '\r' !in p
  {
    if |text| > 0 then SplitEach(Split(Strip(text), '\n'), '\r') else []
  }

  lemma PiecesMembership(text: string, p: string)
    ensures p in Pieces(text) <==>
      |text| > 0 && exists line :: line in Split(Strip(text), '\n') && p in Split(line, '\r')
  {
    SplitEachMembership(Split(Strip(text), '\n'), '\r', p);
  }

  lemma SplitEachSingle(line: string, sep: char)
    requires sep !in line
    ensures SplitEach([line], sep) == [line]
  {
    SplitNoSep(line, sep);
    assert [line][..0] == [];
    assert SplitEach([line], sep) == [] + [line];
  }

  /** A div holding one trimmed line without line breaks offers exactly that line. */
  lemma PiecesOfSingleLine(t: string)
    requires Trimmed(t) && |t| > 0 && '\n' !in t && '\r' !in t
    ensures Pieces(t) == [t]
  {
    assert Split(Strip(t), '\n') == [t] by {
      StripTrimmed(t);
      SplitNoSep(t, '\n');
    }
    SplitEachSingle(t, '\r');
  }

  /** The list `scrape_footer` builds from the div texts `divs`. */
  function Fragments(divs: seq<string>): seq<string>
    decreases |divs|
  {
    if divs == [] then []
    else Absorb(Fragments(divs[..|divs| - 1]), Pieces(divs[|divs| - 1]))
  }

  /**
   * Every fragment is longer than one character and is its own strip, and no
   * fragment occurs twice.
   */
  lemma {:induction false} FragmentsClean(divs: seq<string>)
    ensures Clean(Fragments(divs))
    ensures forall k :: 0 <= k < |Fragments(divs)| ==> Strip(Fragments(divs)[k]) == Fragments(divs)[k]
    decreases |divs|
  {
    if divs != [] {
      FragmentsClean(divs[..|divs| - 1]);
      AbsorbClean(Fragments(divs[..|divs| - 1]), Pieces(divs[|divs| - 1]));
    }
    var r := Fragments(divs);
    forall k | 0 <= k < |r| ensures Strip(r[k]) == r[k] {
      StripTrimmed(r[k]);
    }
  }

  lemma FragmentsStep(divs: seq<string>, i: nat)
    requires i < |divs|
    ensures Fragments(divs[..i + 1]) == Absorb(Fragments(divs[..i]), Pieces(divs[i]))
  {
    assert divs[..i + 1][..i] == divs[..i];
  }

  /** Some div of `divs` has a piece that strips to the fragment `x`. */
  predicate Offered(divs: seq<string>, x: string)
  {
    exists k, p :: 0 <= k < |divs| && p in Pieces(divs[k]) && Keeps(p, x)
  }

  /**
   * Soundness and completeness: a string is in the result exactly when it is
   * the strip, longer than one character, of a piece of some div.
   */
  lemma {:induction false} FragmentsMembership(divs: seq<string>, x: string)
    ensures x in Fragments(divs) <==> Offered(divs, x)
    decreases |divs|
  {
    if divs != [] {
      var n := |divs| - 1;
      var init := divs[..n];
      var last := divs[n];
      FragmentsMembership(init, x);
      assert Fragments(divs) == Absorb(Fragments(init), Pieces(last));
      AbsorbMembership(Fragments(init), Pieces(last), x);
      OfferedSnoc(divs, x);
    }
  }

  /** Offered by a non-empty footer: offered by all but the last div, or by the last one. */
  lemma OfferedSnoc(divs: seq<string>, x: string)
    requires divs != []
    ensures Offered(divs, x) <==>
      Offered(divs[..|divs| - 1], x) || exists p :: p in Pieces(divs[|divs| - 1]) && Keeps(p, x)
  {
    var n := |divs| - 1;
    var init := divs[..n];
    var last := divs[n];
    if Offered(divs, x) {
      var k, p :| 0 <= k < |divs| && p in Pieces(divs[k]) && Keeps(p, x);
      if k < n {
        assert init[k] == divs[k];
        assert Offered(init, x);
      } else {
        assert k == n;
      }
    }
    if Offered(init, x) {
      var k, p :| 0 <= k < |init| && p in Pieces(init[k]) && Keeps(p, x);
      assert divs[k] == init[k];
      assert Offered(divs, x);
    }
    if exists p :: p in Pieces(last) && Keeps(p, x) {
      var p :| p in Pieces(last) && Keeps(p, x);
      assert 0 <= n < |divs| && p in Pieces(divs[n]);
      assert Offered(divs, x);
    }
  }

  /** The loop only appends: the list after k divs is a prefix of the final one. */
  lemma {:induction false} FragmentsGrow(divs: seq<string>, k: nat)
    requires k <= |divs|
    ensures Fragments(divs[..k]) <= Fragments(divs)
    decreases |divs| - k
  {
    if k < |divs| {
      FragmentsStep(divs, k);
      FragmentsGrow(divs, k + 1);
    } else {
      assert divs[..k] == divs;
    }
  }

  /**
   * The `len(div.text) > 0` test is redundant: an empty text would be cut
   * into the single piece `""`, which is never kept.
   */
  lemma EmptyTextAddsNothing(acc: seq<string>)
    ensures Absorb(acc, SplitEach(Split(Strip(""), '\n'), '\r')) == acc
  {
    var ps := SplitEach(Split(Strip(""), '\n'), '\r');
    assert Split(Strip(""), '\n') == [""];
    assert ps == [""];
    assert Absorb(acc, ps) == Add(Absorb(acc, []), "");
  }

  /** One pass of the carriage-return loop: the list grows by at most the one stripped piece. */
  lemma CarriageStep(start: seq<string>, pieces: seq<string>, k: nat, list: seq<string>, list': seq<string>)
    requires k < |pieces| && list == Absorb(start, pieces[..k])
    requires list' == if Strip(pieces[k]) !in list && |Strip(pieces[k])| > 1 then list + [Strip(pieces[k])] else list
    ensures list' == Absorb(start, pieces[..k + 1])
  {
    AbsorbStep(start, pieces, k);
  }

  /** One pass of the line-feed loop: the pieces of line `j` are absorbed after those of the earlier lines. */
  lemma LineStep(before: seq<string>, lines: seq<string>, j: nat)
    requires j < |lines|
    ensures Absorb(before, SplitEach(lines[..j + 1], '\r')) ==
            Absorb(Absorb(before, SplitEach(lines[..j], '\r')), Split(lines[j], '\r'))
  {
    SplitEachStep(lines, '\r', j);
    AbsorbAppend(before, SplitEach(lines[..j], '\r'), Split(lines[j], '\r'));
  }

  /**
   * The innermost loop of `scrape_footer`: each carriage-return piece of one
   * line is stripped and appended when it is new and longer than one character.
   */
  method AbsorbPieces(start: seq<string>, carriageList: seq<string>) returns (textList: seq<string>)
    ensures textList == Absorb(start, carriageList)
  {
    textList := start;
    var k := 0;
    while k < |carriageList|
      invariant 0 <= k <= |carriageList|
      invariant textList == Absorb(start, carriageList[..k])
    {
      ghost var prev := textList;
      var piece := Strip(carriageList[k]);
      if piece !in textList {
        if |piece| > 1 {
          textList := textList + [piece];
        }
      }
      CarriageStep(start, carriageList, k, prev, textList);
      k := k + 1;
    }
    assert carriageList[..k] == carriageList;
  }

  /** The middle loop of `scrape_footer`: the lines of one div text, each cut at carriage returns. */
  method AbsorbLines(before: seq<string>, newlineList: seq<string>) returns (textList: seq<string>)
    ensures textList == Absorb(before, SplitEach(newlineList, '\r'))
  {
    textList := before;
    var j := 0;
    while j < |newlineList|
      invariant 0 <= j <= |newlineList|
      invariant textList == Absorb(before, SplitEach(newlineList[..j], '\r'))
    {
      var carriageList := Split(newlineList[j], '\r');
      LineStep(before, newlineList, j);
      textList := AbsorbPieces(textList, carriageList);
      j := j + 1;
    }
    assert newlineList[..j] == newlineList;
  }

  /**
   * `scrape_footer` once the page is fetched and parsed: `None` is a page
   * without a footer, on which `footer.find_all` raises `AttributeError`.
   */
  method ScrapeFooter(footer: Option<seq<string>>) returns (r: ScrapeOutcome)
    ensures footer.None? ==> r == NoFooter
    ensures footer.Some? ==> r == Scraped(Fragments(footer.value))
  {
    if footer.None? {
      return NoFooter;
    }
    var divs := footer.value;
    var textList: seq<string> := [];
    var i := 0;
    while i < |divs|
      invariant 0 <= i <= |divs|
      invariant textList == Fragments(divs[..i])
    {
      var text := divs[i];
      if |text| > 0 {
        var newlineList := Split(Strip(text), '\n');
        textList := AbsorbLines(textList, newlineList);
      }
      FragmentsStep(divs, i);
      i := i + 1;
    }
    assert divs[..i] == divs;
    return Scraped(textList);
  }

  // ---------------------------------------------------------------------------
  // Collecting the footers of many URLs
  // ---------------------------------------------------------------------------

  /** The argument of `collect_footers`: a list of URLs or a single one. */
  datatype UrlArg = UrlList(urls: seq<string>) | SingleUrl(url: string)

  /** A non-list argument is wrapped in a one-element list. */
  function UrlsOf(arg: UrlArg): seq<string>
  {
    match arg
    case UrlList(urls) => urls
    case SingleUrl(url) => [url]
  }

  /**
   * A Python dictionary from URL to fragment list: `keys` in insertion order
   * beside the mapping itself.
   */
  datatype Dict = Dict(keys: seq<string>, entries: map<string, seq<string>>)
  {
    predicate Valid()
    {
      Distinct(keys) &&
      (forall k :: 0 <= k < |keys| ==> keys[k] in entries) &&
      (forall u :: u in entries ==> u in keys)
    }

    /**
     * `update({url: f})`: the entry for `url` becomes `f`; a new key goes to
     * the end, an existing one keeps its place.
     */
    function Update(url: string, f: seq<string>): (d: Dict)
      requires Valid()
      ensures d.Valid()
      ensures d.entries == entries[url := f]
      ensures keys <= d.keys
      ensures url in entries ==> d.keys == keys
    {
      if url in entries then Dict(keys, entries[url := f])
      else Dict(keys + [url], entries[url := f])
    }
  }

  /** What `collect_footers` ends with. */
  datatype Collected =
    | Footers(dict: Dict)  // the returned dictionary
    | Raised(at: nat)      // an exception other than `AttributeError` escaped on the call for URL `at`

  /** The dictionary after the loop has handled the URLs `urls`. */
  function Collect(urls: seq<string>, scrape: (nat, string) -> ScrapeOutcome): (r: Collected)
    ensures r.Footers? ==> r.dict.Valid()
    ensures r.Raised? <==> exists i: nat :: i < |urls| && scrape(i, urls[i]).OtherFault?
    ensures r.Raised? ==>
      (r.at < |urls| && scrape(r.at, urls[r.at]).OtherFault? &&
       forall i: nat :: i < r.at ==> !scrape(i, urls[i]).OtherFault?)
    decreases |urls|
  {
    if urls == [] then Footers(Dict([], map[]))
    else
      var n := |urls| - 1;
      var init := urls[..n];
      var url := urls[n];
      assert forall i: nat :: i < n ==> init[i] == urls[i];
      match Collect(init, scrape)
      case Raised(k) => Raised(k)
      case Footers(d) =>
        match scrape(n, url)
        case Scraped(f) => Footers(d.Update(url, f))
        case NoFooter => Footers(d)
        case OtherFault => Raised(n)
  }

  /**
   * When no fault escapes, a URL is a key exactly when some call for it
   * succeeded; in particular every key is one of the input URLs.
   */
  lemma {:induction false} CollectKeys(urls: seq<string>, scrape: (nat, string) -> ScrapeOutcome, u: string)
    requires Collect(urls, scrape).Footers?
    ensures u in Collect(urls, scrape).dict.entries <==>
      exists i: nat :: i < |urls| && urls[i] == u && scrape(i, u).Scraped?
    ensures u in Collect(urls, scrape).dict.keys ==> u in urls
    decreases |urls|
  {
    if urls != [] {
      var n := |urls| - 1;
      var init := urls[..n];
      CollectKeys(init, scrape, u);
      assert forall i: nat :: i < n ==> init[i] == urls[i];
    }
  }

  /**
   * A key maps to the list of its last successful call: later calls for the
   * same URL that end in `AttributeError` leave it alone.
   */
  lemma {:induction false} CollectLast(urls: seq<string>, scrape: (nat, string) -> ScrapeOutcome, i: nat)
    requires Collect(urls, scrape).Footers?
    requires i < |urls| && scrape(i, urls[i]).Scraped?
    requires forall j: nat :: i < j < |urls| && urls[j] == urls[i] ==> !scrape(j, urls[i]).Scraped?
    ensures urls[i] in Collect(urls, scrape).dict.entries
    ensures Collect(urls, scrape).dict.entries[urls[i]] == scrape(i, urls[i]).fragments
    decreases |urls|
  {
    var n := |urls| - 1;
    var init := urls[..n];
    if i < n {
      assert init[i] == urls[i];
      CollectLast(init, scrape, i);
    }
  }

  /** The keys after k URLs are a prefix of the final keys: first-insertion order. */
  lemma {:induction false} CollectKeysGrow(urls: seq<string>, scrape: (nat, string) -> ScrapeOutcome, k: nat)
    requires k <= |urls|
    requires Collect(urls, scrape).Footers?
    ensures Collect(urls[..k], scrape).Footers?
    ensures Collect(urls[..k], scrape).dict.keys <= Collect(urls, scrape).dict.keys
    decreases |urls| - k
  {
    if k < |urls| {
      var next := urls[..k + 1];
      assert next[..k] == urls[..k];
      CollectKeysGrow(urls, scrape, k + 1);
    } else {
      assert urls[..k] == urls;
    }
  }

  /** One pass of the loop of `collect_footers`, on the dictionary built so far. */
  lemma CollectStep(urls: seq<string>, scrape: (nat, string) -> ScrapeOutcome, i: nat, d: Dict)
    requires i < |urls| && Collect(urls[..i], scrape) == Footers(d)
    ensures scrape(i, urls[i]).Scraped? ==>
      d.Valid() && Collect(urls[..i + 1], scrape) == Footers(d.Update(urls[i], scrape(i, urls[i]).fragments))
    ensures scrape(i, urls[i]).NoFooter? ==> Collect(urls[..i + 1], scrape) == Footers(d)
    ensures scrape(i, urls[i]).OtherFault? ==> Collect(urls[..i + 1], scrape) == Raised(i)
  {
    assert urls[..i + 1][..i] == urls[..i];
  }

  /** A fault on call `i` of the prefix up to `i` is the first fault of the whole list. */
  lemma CollectRaised(urls: seq<string>, scrape: (nat, string) -> ScrapeOutcome, i: nat)
    requires i < |urls| && Collect(urls[..i + 1], scrape) == Raised(i)
    ensures Collect(urls, scrape) == Raised(i)
  {
    var pre := urls[..i + 1];
    assert pre[i] == urls[i];
    forall j: nat | j < i ensures !scrape(j, urls[j]).OtherFault? {
      assert pre[j] == urls[j];
    }
  }

  /**
   * `collect_footers`: scrape every URL in order, record each success and
   * skip each `AttributeError`; any other exception ends the call.
   */
  method CollectFooters(arg: UrlArg, scrape: (nat, string) -> ScrapeOutcome) returns (r: Collected)
    ensures r == Collect(UrlsOf(arg), scrape)
    ensures arg.SingleUrl? ==> r == Collect([arg.url], scrape)
  {
    var urls := UrlsOf(arg);
    var footerDict := Dict([], map[]);
    var i := 0;
    while i < |urls|
      invariant 0 <= i <= |urls|
      invariant Collect(urls[..i], scrape) == Footers(footerDict)
    {
      var url := urls[i];
      CollectStep(urls, scrape, i, footerDict);
      match scrape(i, url) {
        case Scraped(footerText) =>
          footerDict := footerDict.Update(url, footerText);
        case NoFooter =>
        case OtherFault =>
          CollectRaised(urls, scrape, i);
          return Raised(i);
      }
      i := i + 1;
    }
    assert urls[..i] == urls;
    return Footers(footerDict);
  }
}
