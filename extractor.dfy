/** The episode extractor: `get_item` and `find_episodes_in_page` in
    generate-snarchive.py, and the loop over pages in `find_episodes`.

    A parsed archive page is abstracted to the sequence of its `<a>` elements in
    document order. For each one the model keeps only what `get_item` reads when
    that element is the one being looked up: its `name` attribute, the text of
    the first `<table>` after it (the header), and the texts of the first
    `<font size=2>` and `<font size=1>` inside the `<table>` after that (title and
    description). `None` stands for an attribute that is absent or a node the
    markup search does not find; every such case makes the Python code raise,
    and the per-anchor handler turns the raise into a skip. */
module Extractor {
  import opened Wrappers
  import opened PyText
  import opened PyInt
  import opened Sequences

  datatype Anchor = Anchor(
    name: Option<string>,
    header: Option<string>,
    title: Option<string>,
    description: Option<string>)

  type Page = seq<Anchor>

  /** The dictionary `get_item` returns. */
  datatype Record = Record(
    episode: string,
    date: string,
    length: string,
    minutes: int,
    nr: int,
    title: string,
    description: string)

  /** What one anchor produces: a record, or nothing because some step raised. */
  datatype Outcome = Ok(record: Record) | Skip

  /** U+001E, the control character removed from descriptions. */
  const RecordSeparator: char := '\U{1E}'

  /** What every record that leaves `get_item` satisfies. */
  predicate WellFormed(r: Record) {
    && r.description != []
    && IsStripped(r.description)
    && RecordSeparator !in r.description
    && IsStripped(r.title)
    && IsStripped(r.episode) && IsStripped(r.date) && IsStripped(r.length)
    && '|' !in r.episode && '|' !in r.date && '|' !in r.length
  }

  /** `int(episode.partition('#')[2])`: the number after the first `#`. */
  function Number(episode: string): Option<int> {
    ParseInt(Partition(episode, "#").value.tail)
  }

  /** The `minutes` of `get_item`: `int(length.split(' ')[0])`, or 1 when that
      raises. */
  function Minutes(length: string): int {
    match ParseInt(Split(length, ' ')[0])
    case Some(m) => m
    case None => 1
  }

  /** `description.partition(title)[2]` when the description starts with the
      title, the description itself otherwise; `None` when `partition` raises
      on an empty title (which every description starts with). The result is
      what is left after exactly one leading copy of the title. */
  function RemoveTitle(description: string, title: string): (r: Option<string>)
    ensures r.None? <==> title == []
    ensures r.Some? && StartsWith(description, title) ==> title + r.value == description
    ensures !StartsWith(description, title) ==> r == Some(description)
  {
    if StartsWith(description, title) then
      match Partition(description, title)
      case None => None
      case Some(p) =>
        assert OccursAt(description, title, 0);
        assert p.head == [];
        Some(p.tail)
    else Some(description)
  }

  /** `description.strip()` followed by the deletion of U+001E. Because Python
      counts U+001E as whitespace, the result is still stripped, and it is empty
      exactly when the input was nothing but whitespace. */
  function CleanDescription(d: string): (r: string)
    ensures IsStripped(r)
    ensures RecordSeparator !in r
    ensures r == [] <==> forall k :: 0 <= k < |d| ==> IsSpace(d[k])
  {
    RemoveSpaceKeepsStripped(Strip(d), RecordSeparator);
    RemoveChar(Strip(d), RecordSeparator)
  }

  /** Lines 133-159 of `get_item`, applied to the anchor the lookup found. */
  function ParseEpisode(a: Anchor): (r: Outcome)
    ensures r.Ok? ==> WellFormed(r.record)
  {
    if a.header.None? then Skip
    else
      var fields := Split(a.header.value, '|');
      if |fields| != 3 then Skip
      else
        var episode, date, length := Strip(fields[0]), Strip(fields[1]), Strip(fields[2]);
        StripKeepsChars(fields[0]);
        StripKeepsChars(fields[1]);
        StripKeepsChars(fields[2]);
        match Number(episode)
        case None => Skip
        case Some(nr) =>
          var minutes := Minutes(length);
          if a.title.None? || a.description.None? then Skip
          else
            match RemoveTitle(a.description.value, a.title.value)
            case None => Skip
            case Some(d) =>
              var description := CleanDescription(d);
              var title := Strip(a.title.value);
              if description == [] then Skip
              else Ok(Record(episode, date, length, minutes, nr, title, description))
  }

  /** `soup.find('a', attrs={'name': name})`: the index of the first anchor whose
      name is exactly `name`. */
  function FindNamed(page: Page, name: string, from: nat): (r: Option<nat>)
    decreases |page| - from
    ensures r.Some? ==> from <= r.value < |page| && page[r.value].name == Some(name)
    ensures r.Some? ==> forall k :: from <= k < r.value ==> page[k].name != Some(name)
    ensures r.None? ==> forall k :: from <= k < |page| ==> page[k].name != Some(name)
  {
    if from >= |page| then None
    else if page[from].name == Some(name) then Some(from)
    else FindNamed(page, name, from + 1)
  }

  /** `get_item(soup, item)`: look up the first anchor named `str(item)` and
      parse what follows it. The header's own number is kept; it is never
      compared with `item`. */
  function GetItem(page: Page, item: int): (r: Outcome)
  {
    match FindNamed(page, IntToStr(item), 0)
    case None => Skip
    case Some(j) => ParseEpisode(page[j])
  }

  /** The body of the `try` in `find_episodes_in_page` for one anchor. An anchor
      without a name, or whose name `int()` rejects, yields nothing. */
  function AnchorOutcome(page: Page, a: Anchor): (r: Outcome)
    ensures a.name.None? ==> r == Skip
    ensures a.name.Some? && ParseInt(a.name.value).None? ==> r == Skip
  {
    match a.name
    case None => Skip
    case Some(s) =>
      match ParseInt(s)
      case None => Skip
      case Some(n) => GetItem(page, n)
  }

  /** What an outcome contributes to the yielded sequence. */
  function Emitted(o: Outcome): seq<Record> {
    if o.Ok? then [o.record] else []
  }

  /** The outcome of each of `anchors`, in order. */
  function Outcomes(page: Page, anchors: seq<Anchor>): seq<Outcome> {
    Map(a => AnchorOutcome(page, a), anchors)
  }

  /** What each of `anchors` contributes, in order. */
  function Contributions(page: Page, anchors: seq<Anchor>): seq<seq<Record>> {
    Map(Emitted, Outcomes(page, anchors))
  }

  /** The records `find_episodes_in_page(page)` yields while it walks `anchors`
      (a prefix of the page's anchors), in order. */
  function PageRecords(page: Page, anchors: seq<Anchor>): seq<Record> {
    Concat(Contributions(page, anchors))
  }

  /** `find_episodes_in_page`: every anchor is tried in turn, and any failure
      only skips that anchor. */
  method FindEpisodesInPage(page: Page) returns (records: seq<Record>)
    ensures records == PageRecords(page, page)
  {
    records := [];
    for i := 0 to |page|
      invariant records == PageRecords(page, page[..i])
    {
      var link := page[i];
      var outcome := AnchorOutcome(page, link);
      PrefixSnoc(page, i);
      PageRecordsSnoc(page, page[..i], link);
      records := records + Emitted(outcome);
    }
    assert page[..|page|] == page;
  }

  /** The record for a named anchor is the record `get_item` finds for the
      number its name denotes: the anchor itself is not consulted again, the
      first anchor named `str(int(name))` is. */
  lemma CanonicalLookup(page: Page, a: Anchor, n: int)
    requires a.name.Some? && ParseInt(a.name.value) == Some(n)
    ensures AnchorOutcome(page, a) == GetItem(page, n)
  {
  }

  lemma ContributionsAppend(page: Page, xs: seq<Anchor>, ys: seq<Anchor>)
    ensures Contributions(page, xs + ys) == Contributions(page, xs) + Contributions(page, ys)
  {
    MapAppend(a => AnchorOutcome(page, a), xs, ys);
    MapAppend(Emitted, Outcomes(page, xs), Outcomes(page, ys));
  }

  lemma PageRecordsSnoc(page: Page, anchors: seq<Anchor>, a: Anchor)
    ensures PageRecords(page, anchors + [a]) == PageRecords(page, anchors) + Emitted(AnchorOutcome(page, a))
  {
    ContributionsAppend(page, anchors, [a]);
    ConcatAppend(Contributions(page, anchors), Contributions(page, [a]));
    assert Contributions(page, [a]) == [Emitted(AnchorOutcome(page, a))];
    ConcatSingleton(Emitted(AnchorOutcome(page, a)));
  }

  /** What one fetched page contributes; a page whose download raised (`None`)
      contributes nothing. */
  function PageContribution(page: Option<Page>): seq<Record> {
    if page.Some? then PageRecords(page.value, page.value) else []
  }

  /** What each of `pages` contributes, in order. */
  function PageContributions(pages: seq<Option<Page>>): seq<seq<Record>> {
    Map(PageContribution, pages)
  }

  /** The records of all pages, in page order. */
  function AllRecords(pages: seq<Option<Page>>): seq<Record> {
    Concat(PageContributions(pages))
  }

  lemma PageContributionsAppend(xs: seq<Option<Page>>, ys: seq<Option<Page>>)
    ensures PageContributions(xs + ys) == PageContributions(xs) + PageContributions(ys)
  {
    MapAppend(PageContribution, xs, ys);
  }

  /** The records of several pages are those of each page in turn. */
  lemma AllRecordsAppend(xs: seq<Option<Page>>, ys: seq<Option<Page>>)
    ensures AllRecords(xs + ys) == AllRecords(xs) + AllRecords(ys)
  {
    PageContributionsAppend(xs, ys);
    ConcatAppend(PageContributions(xs), PageContributions(ys));
  }

  lemma AllRecordsSnoc(pages: seq<Option<Page>>, page: Option<Page>)
    ensures AllRecords(pages + [page]) == AllRecords(pages) + PageContribution(page)
  {
    PageContributionsAppend(pages, [page]);
    ConcatAppend(PageContributions(pages), PageContributions([page]));
    assert PageContributions([page]) == [PageContribution(page)];
    ConcatSingleton(PageContribution(page));
  }

  method FindEpisodes(pages: seq<Option<Page>>) returns (records: seq<Record>)
    ensures records == AllRecords(pages)
  {
    records := [];
    for i := 0 to |pages|
      invariant records == AllRecords(pages[..i])
    {
      var page := pages[i];
      PrefixSnoc(pages, i);
      AllRecordsSnoc(pages[..i], page);
      if page.Some? {
        var found := FindEpisodesInPage(page.value);
        records := records + found;
      }
    }
    assert pages[..|pages|] == pages;
  }
}

/** What is proved about the extractor: the per-record rules of `get_item` and
    the page-level behaviour of `find_episodes_in_page`. */
module ExtractorProperties {
  import opened Wrappers
  import opened PyText
  import opened PyInt
  import opened Extractor
  import opened Sequences

  // ----- get_item: header fields -----------------------------------------

  /** Three `|`-free fields joined by `|` are split back into exactly those
      three fields. */
  lemma HeaderFields(e: string, d: string, l: string)
    requires '|' !in e && '|' !in d && '|' !in l
    ensures Split(e + "|" + d + "|" + l, '|') == [e, d, l]
  {
    SplitThree(e, d, l, '|');
  }

  /** An episode label without `#` has no number: `partition` leaves an empty
      tail and `int('')` raises. */
  lemma NumberWithoutHash(e: string)
    requires '#' !in e
    ensures Number(e) == None
  {
    var p := Partition(e, "#").value;
    if p.sep != [] {
      assert false;
    }
  }

  /** The number is read from the text after the FIRST `#`, whatever follows. */
  lemma {:induction false} NumberAfterFirstHash(e: string, i: nat)
    requires i < |e| && e[i] == '#' && '#' !in e[..i]
    ensures Number(e) == ParseInt(e[i + 1..])
  {
    var p := Partition(e, "#").value;
    assert OccursAt(e, "#", i);
    if p.sep == [] {
      assert false;
    }
    assert e[|p.head|] == '#';
    if |p.head| < i {
      assert false;
    }
    assert |p.head| == i;
    assert p.tail == e[i + 1..];
  }

  /** A label `p#n` with `#`-free `p` carries the number `n`. */
  lemma NumberOfLabel(p: string, n: int)
    requires '#' !in p
    ensures Number(p + "#" + IntToStr(n)) == Some(n)
  {
    var e := p + "#" + IntToStr(n);
    assert e[..|p|] == p;
    assert e[|p| + 1..] == IntToStr(n);
    NumberAfterFirstHash(e, |p|);
    ParseIntToStr(n);
  }

  // ----- get_item: minutes -----------------------------------------------

  /** The first space-separated token of `a + " " + rest` is `a` when `a` has
      no space. */
  lemma FirstToken(a: string, rest: string)
    requires ' ' !in a
    ensures Split(a + " " + rest, ' ')[0] == a
  {
    var r := Split(rest, ' ');
    var ts := [a] + r;
    assert ts[1..] == r;
    assert ts[0] == a;
    assert Join(ts, ' ') == a + " " + rest;
    SplitJoin(ts, ' ');
  }

  /** A length field that starts with a number followed by a space gives
      that many minutes. */
  lemma MinutesOfLeadingNumber(n: int, rest: string)
    ensures Minutes(IntToStr(n) + " " + rest) == n
    ensures Minutes(IntToStr(n)) == n
  {
    var s := IntToStr(n);
    assert n < 0 ==> s[1..] == NatToStr(-n);
    assert ' ' !in s;
    FirstToken(s, rest);
    SplitCount(s, ' ');
    ParseIntToStr(n);
  }

  /** A length field whose first space-separated word is not an integer
      literal between whitespace `int()` skips, such as `"about an hour"`,
      `"63min"` or `"63\U{1E} min"`, gives 1 minute. */
  lemma MinutesFallback(w: string, rest: string)
    requires ' ' !in w && forall i, j :: !IntText(w, i, j)
    ensures Minutes(w + " " + rest) == 1
    ensures Minutes(w) == 1
  {
    FirstToken(w, rest);
    SplitCount(w, ' ');
    ParseIntGrammar(w);
  }

  /** `int()` rejects a stripped word that does not start with a digit or sign. */
  lemma NotANumber(w: string)
    requires w != [] && IsStripped(w)
    requires !IsDigit(w[0]) && w[0] != '+' && w[0] != '-'
    ensures ParseInt(w) == None
  {
    StrayCharacter(w, 0);
  }

  lemma MinutesExample()
    ensures Minutes("63 min") == 63
  {
    FirstTokenExample();
    ParseIntExample();
  }

  lemma FirstTokenExample()
    ensures Split("63 min", ' ')[0] == "63"
    ensures Split("about an hour", ' ')[0] == "about"
  {
    FirstToken("63", "min");
    assert "63" + " " + "min" == "63 min";
    FirstToken("about", "an hour");
    assert "about" + " " + "an hour" == "about an hour";
  }

  lemma ParseIntExample()
    ensures ParseInt("63") == Some(63)
    ensures ParseInt("about") == None
  {
    ParseIntToStr(63);
    assert IntToStr(63) == "63";
    NotANumber("about");
  }

  lemma MinutesFallbackExample()
    ensures Minutes("about an hour") == 1
  {
    FirstTokenExample();
    ParseIntExample();
  }

  /** A U+001E glued to the number makes `int()` raise, so the length falls
      back to 1 minute. */
  lemma MinutesSeparatorExample()
    ensures Minutes("63\U{1E} min") == 1
  {
    FirstToken("63\U{1E}", "min");
    assert "63\U{1E}" + " " + "min" == "63\U{1E} min";
    StrayCharacter("63\U{1E}", 2);
  }

  // ----- get_item: title and description ---------------------------------

  /** Exactly one leading copy of the title is removed; further copies in the
      rest of the description stay. */
  lemma TitleRemovedOnce(title: string, rest: string)
    requires title != []
    ensures RemoveTitle(title + rest, title) == Some(rest)
  {
    assert (title + rest)[..|title|] == title;
  }

  // ----- get_item: the whole record --------------------------------------

  /** The description that is left once a leading copy of the title is gone. */
  function Remainder(description: string, title: string): string {
    if StartsWith(description, title) then description[|title|..] else description
  }

  /** Exactly the conditions under which `get_item` returns instead of raising.
      The length field is not among them: a bad length never drops a record. */
  predicate Accepted(a: Anchor) {
    && a.header.Some?
    && |Split(a.header.value, '|')| == 3
    && Number(Strip(Split(a.header.value, '|')[0])).Some?
    && a.title.Some? && a.title.value != []
    && a.description.Some?
    && exists k :: 0 <= k < |Remainder(a.description.value, a.title.value)|
                   && !IsSpace(Remainder(a.description.value, a.title.value)[k])
  }

  lemma RemoveTitleRemainder(description: string, title: string)
    requires title != []
    ensures RemoveTitle(description, title) == Some(Remainder(description, title))
  {
    if StartsWith(description, title) {
      var r := RemoveTitle(description, title).value;
      assert description == title + r;
      assert description[|title|..] == r;
    }
  }

  /** A record is produced exactly when the anchor is `Accepted`. */
  lemma ParseEpisodeAccepts(a: Anchor)
    ensures ParseEpisode(a).Ok? <==> Accepted(a)
  {
    if a.title.Some? && a.title.value != [] && a.description.Some? {
      RemoveTitleRemainder(a.description.value, a.title.value);
    }
  }

  /** The number of a label is read after its first `#`. */
  lemma NumberFirstHash(e: string)
    requires Number(e).Some?
    ensures exists i :: 0 <= i < |e| && e[i] == '#' && '#' !in e[..i] && ParseInt(e[i + 1..]) == Number(e)
  {
    var p := Partition(e, "#").value;
    if p.sep == [] {
      ParseIntBlank(p.tail);
      assert false;
    }
    var i := |p.head|;
    assert e == p.head + "#" + p.tail;
    assert e[i] == '#' && e[i + 1..] == p.tail;
    assert '#' !in e[..i] by {
      forall k | 0 <= k < i ensures e[k] != '#' {
        OccursAtChar(e, '#', k);
      }
    }
  }

  /** How the fields of a produced record come from the anchor's texts: the
      three stripped header fields unchanged, the number after the first `#`
      of the first field, the minutes read from the length field, the stripped
      title, and the cleaned remainder of the description. */
  lemma ParseEpisodeFields(a: Anchor)
    requires ParseEpisode(a).Ok?
    ensures a.header.Some? && a.title.Some? && a.description.Some?
    ensures |Split(a.header.value, '|')| == 3
    ensures var r, f := ParseEpisode(a).record, Split(a.header.value, '|');
      r.episode == Strip(f[0]) && r.date == Strip(f[1]) && r.length == Strip(f[2])
    ensures var r := ParseEpisode(a).record;
      Number(r.episode) == Some(r.nr)
    ensures var r := ParseEpisode(a).record;
      exists i :: 0 <= i < |r.episode| && r.episode[i] == '#' && '#' !in r.episode[..i]
                  && ParseInt(r.episode[i + 1..]) == Some(r.nr)
    ensures var r := ParseEpisode(a).record;
      r.minutes == Minutes(r.length)
    ensures var r := ParseEpisode(a).record;
      r.title == Strip(a.title.value)
      && r.description == CleanDescription(Remainder(a.description.value, a.title.value))
  {
    RemoveTitleRemainder(a.description.value, a.title.value);
    NumberFirstHash(ParseEpisode(a).record.episode);
  }

  // ----- find_episodes_in_page -------------------------------------------

  /** Extraction is compositional: the records of a run of anchors are the
      records of its first part followed by those of the rest. */
  lemma PageRecordsAppend(page: Page, xs: seq<Anchor>, ys: seq<Anchor>)
    ensures PageRecords(page, xs + ys) == PageRecords(page, xs) + PageRecords(page, ys)
  {
    ContributionsAppend(page, xs, ys);
    ConcatAppend(Contributions(page, xs), Contributions(page, ys));
  }

  /** Every anchor is handled on its own: whatever an anchor produces, and in
      particular when it fails, the anchors before and after it produce the
      same records as they would without it. */
  lemma AnchorsIndependent(page: Page, xs: seq<Anchor>, a: Anchor, ys: seq<Anchor>)
    ensures PageRecords(page, xs + [a] + ys)
         == PageRecords(page, xs) + Emitted(AnchorOutcome(page, a)) + PageRecords(page, ys)
    ensures AnchorOutcome(page, a) == Skip
        ==> PageRecords(page, xs + [a] + ys) == PageRecords(page, xs + ys)
  {
    var e := Emitted(AnchorOutcome(page, a));
    ContributionsAppend(page, xs + [a], ys);
    ContributionsAppend(page, xs, [a]);
    ContributionsAppend(page, xs, ys);
    assert Contributions(page, [a]) == [e];
    ConcatAround(Contributions(page, xs), e, Contributions(page, ys));
  }

  /** At most one record per anchor. */
  lemma PageRecordsBound(page: Page, anchors: seq<Anchor>)
    ensures |PageRecords(page, anchors)| <= |anchors|
  {
    ConcatLength(Contributions(page, anchors));
  }

  /** A record is yielded exactly when some anchor produces it, and every
      yielded record is well formed. */
  lemma PageRecordsMembers(page: Page, anchors: seq<Anchor>)
    ensures forall r :: r in PageRecords(page, anchors)
                   <==> exists k :: 0 <= k < |anchors| && AnchorOutcome(page, anchors[k]) == Ok(r)
    ensures forall r :: r in PageRecords(page, anchors) ==> WellFormed(r)
  {
    var os := Outcomes(page, anchors);
    EmittedMembers(os);
    forall k | 0 <= k < |anchors|
      ensures os[k].Ok? ==> WellFormed(os[k].record)
    {
      AnchorWellFormed(page, anchors[k]);
    }
  }

  /** A record is in what a run of outcomes yields exactly when one of them
      is that record. */
  lemma EmittedMembers(os: seq<Outcome>)
    ensures forall r :: r in Concat(Map(Emitted, os)) <==> exists k :: 0 <= k < |os| && os[k] == Ok(r)
  {
    var cs := Map(Emitted, os);
    ConcatMembers(cs);
    forall r ensures (exists k :: 0 <= k < |cs| && r in cs[k]) <==> exists k :: 0 <= k < |os| && os[k] == Ok(r) {
      if exists k :: 0 <= k < |cs| && r in cs[k] {
        var k :| 0 <= k < |cs| && r in cs[k];
        assert os[k] == Ok(r);
      }
      if exists k :: 0 <= k < |os| && os[k] == Ok(r) {
        var k :| 0 <= k < |os| && os[k] == Ok(r);
        assert r in cs[k];
      }
    }
  }

  /** What any anchor produces is well formed. */
  lemma AnchorWellFormed(page: Page, a: Anchor)
    ensures AnchorOutcome(page, a).Ok? ==> WellFormed(AnchorOutcome(page, a).record)
  {
    if a.name.Some? && ParseInt(a.name.value).Some? {
      var n := ParseInt(a.name.value).value;
      CanonicalLookup(page, a, n);
      match FindNamed(page, IntToStr(n), 0)
      case None =>
      case Some(j) =>
    }
  }

  /** Two anchors whose names denote the same integer (`"7"` and `"007"`,
      say) produce the same outcome. */
  lemma SameNumberSameOutcome(page: Page, a: Anchor, b: Anchor)
    requires a.name.Some? && b.name.Some?
    requires ParseInt(a.name.value).Some? && ParseInt(a.name.value) == ParseInt(b.name.value)
    ensures AnchorOutcome(page, a) == AnchorOutcome(page, b)
  {
    CanonicalLookup(page, a, ParseInt(a.name.value).value);
    CanonicalLookup(page, b, ParseInt(a.name.value).value);
  }

  /** The record for a named anchor comes from the FIRST anchor of the page
      named `str(int(name))`, and there is none when no anchor has that name. */
  lemma ResolvesToFirstCanonical(page: Page, a: Anchor, n: int)
    requires a.name.Some? && ParseInt(a.name.value) == Some(n)
    ensures (forall k :: 0 <= k < |page| ==> page[k].name != Some(IntToStr(n)))
            ==> AnchorOutcome(page, a) == Skip
    ensures AnchorOutcome(page, a).Ok? ==>
      exists j :: 0 <= j < |page| && page[j].name == Some(IntToStr(n))
                  && (forall k :: 0 <= k < j ==> page[k].name != Some(IntToStr(n)))
                  && ParseEpisode(page[j]) == AnchorOutcome(page, a)
    ensures forall j :: 0 <= j < |page| && page[j].name == Some(IntToStr(n))
                        && (forall k :: 0 <= k < j ==> page[k].name != Some(IntToStr(n)))
                        ==> AnchorOutcome(page, a) == ParseEpisode(page[j])
  {
    CanonicalLookup(page, a, n);
    match FindNamed(page, IntToStr(n), 0)
    case None =>
    case Some(j) =>
    forall j | 0 <= j < |page| && page[j].name == Some(IntToStr(n))
               && (forall k :: 0 <= k < j ==> page[k].name != Some(IntToStr(n)))
      ensures AnchorOutcome(page, a) == ParseEpisode(page[j])
    {
      FirstNamed(page, IntToStr(n), j);
      GetItemFound(page, n, j);
    }
  }

  /** An anchor whose name is already canonical and is the first with that
      name is parsed from its own texts. */
  lemma OwnTextsWhenFirst(page: Page, i: nat, n: int)
    requires i < |page| && page[i].name == Some(IntToStr(n))
    requires forall k :: 0 <= k < i ==> page[k].name != Some(IntToStr(n))
    ensures AnchorOutcome(page, page[i]) == ParseEpisode(page[i])
  {
    ParseIntToStr(n);
    CanonicalLookup(page, page[i], n);
    FirstNamed(page, IntToStr(n), i);
    GetItemFound(page, n, i);
  }

  /** The first anchor with a name is the one `find` returns. */
  lemma FirstNamed(page: Page, name: string, i: nat)
    requires i < |page| && page[i].name == Some(name)
    requires forall k :: 0 <= k < i ==> page[k].name != Some(name)
    ensures FindNamed(page, name, 0) == Some(i)
  {
  }

  lemma GetItemFound(page: Page, n: int, i: nat)
    requires FindNamed(page, IntToStr(n), 0) == Some(i)
    ensures GetItem(page, n) == ParseEpisode(page[i])
  {
  }

  lemma PageRecordsOne(page: Page, a: Anchor)
    ensures PageRecords(page, [a]) == Emitted(AnchorOutcome(page, a))
  {
    assert Contributions(page, [a]) == [Emitted(AnchorOutcome(page, a))];
    ConcatSingleton(Emitted(AnchorOutcome(page, a)));
  }

  /** An anchor named with leading zeros (`"007"`) yields the record of the
      first anchor named canonically (`"7"`), not its own. */
  lemma PaddedNameResolves(page: Page, a: Anchor, z: string, n: nat)
    requires forall k :: 0 <= k < |z| ==> z[k] == '0'
    requires a.name == Some(z + IntToStr(n))
    ensures AnchorOutcome(page, a) == GetItem(page, n)
  {
    ParseIntLeadingZeros(z, n);
    CanonicalLookup(page, a, n);
  }

  /** A page with two anchors for the same episode, `"n"` and `"0n"`, yields
      the first one's record twice: nothing removes duplicates. */
  lemma PaddedDuplicate(a: Anchor, b: Anchor, n: nat)
    requires a.name == Some(IntToStr(n)) && b.name == Some("0" + IntToStr(n))
    ensures PageRecords([a, b], [a, b]) == Emitted(ParseEpisode(a)) + Emitted(ParseEpisode(a))
  {
    var page := [a, b];
    TwoAnchors(page, a, b);
    OwnTextsWhenFirst(page, 0, n);
    ParseIntToStr(n);
    CanonicalLookup(page, a, n);
    PaddedNameResolves(page, b, "0", n);
    assert AnchorOutcome(page, b) == AnchorOutcome(page, a) == ParseEpisode(a);
  }

  lemma TwoAnchors(page: Page, a: Anchor, b: Anchor)
    ensures PageRecords(page, [a, b]) == Emitted(AnchorOutcome(page, a)) + Emitted(AnchorOutcome(page, b))
  {
    PageRecordsSnoc(page, [a], b);
    PageRecordsOne(page, a);
    assert [a] + [b] == [a, b];
  }

  /** A header assembled from a number, a date and a length, under a title and
      a description that starts with that title, is parsed back into those
      parts, whatever the anchor's own name is. The number comes from the
      header, the description loses the title and is cleaned. */
  lemma ParseEpisodeOfParts(name: Option<string>, n: int, date: string, length: string,
                            title: string, body: string)
    requires '|' !in date && '|' !in length && IsStripped(date) && IsStripped(length)
    requires title != [] && IsStripped(title)
    requires CleanDescription(body) != []
    ensures ParseEpisode(Anchor(name, Some(Label(n) + "|" + date + "|" + length), Some(title), Some(title + body)))
         == Ok(Record(Label(n), date, length, Minutes(length), n, title, CleanDescription(body)))
  {
    LabelParts(n);
    HeaderFields(Label(n), date, length);
    ParseEpisodeOfFields(Anchor(name, Some(Label(n) + "|" + date + "|" + length), Some(title), Some(title + body)),
                         Label(n), date, length, n, body);
  }

  /** The same, for a header that splits into three stripped fields. */
  lemma ParseEpisodeOfFields(a: Anchor, e: string, d: string, l: string, n: int, body: string)
    requires a.header.Some? && Split(a.header.value, '|') == [e, d, l]
    requires IsStripped(e) && IsStripped(d) && IsStripped(l) && Number(e) == Some(n)
    requires a.title.Some? && a.title.value != [] && IsStripped(a.title.value)
    requires a.description == Some(a.title.value + body) && CleanDescription(body) != []
    ensures ParseEpisode(a) == Ok(Record(e, d, l, Minutes(l), n, a.title.value, CleanDescription(body)))
  {
    AcceptedOfFields(a, e, d, l, n, body);
    ParseEpisodeAccepts(a);
    ParseEpisodeFields(a);
  }

  lemma AcceptedOfFields(a: Anchor, e: string, d: string, l: string, n: int, body: string)
    requires a.header.Some? && Split(a.header.value, '|') == [e, d, l]
    requires IsStripped(e) && Number(e) == Some(n)
    requires a.title.Some? && a.title.value != []
    requires a.description == Some(a.title.value + body) && CleanDescription(body) != []
    ensures Accepted(a) && Remainder(a.description.value, a.title.value) == body
  {
    assert Remainder(a.description.value, a.title.value) == body by {
      assert (a.title.value + body)[..|a.title.value|] == a.title.value;
      assert (a.title.value + body)[|a.title.value|..] == body;
    }
  }

  /** The episode label `#n` of a header. */
  function Label(n: int): string {
    "#" + IntToStr(n)
  }

  lemma LabelParts(n: int)
    ensures '|' !in Label(n) && IsStripped(Label(n)) && Number(Label(n)) == Some(n)
  {
    LabelText(n);
    LabelNumber(n);
  }

  lemma LabelNumber(n: int)
    ensures Number(Label(n)) == Some(n)
  {
    NumberOfLabel([], n);
    assert [] + "#" + IntToStr(n) == Label(n);
  }

  lemma LabelText(n: int)
    ensures '|' !in Label(n) && IsStripped(Label(n))
  {
    var d := NatToStr(if n < 0 then -n else n);
    var sign := if n < 0 then "-" else "";
    assert Label(n) == "#" + sign + d;
    NoBarInDigits(d);
    assert IsDigit(d[|d| - 1]);
  }

  lemma NoBarInDigits(d: string)
    requires AllDigits(d)
    ensures '|' !in d
  {
    assert forall k :: 0 <= k < |d| ==> IsDigit(d[k]);
  }

  // ----- find_episodes ---------------------------------------------------

  /** A page that could not be fetched contributes nothing. */
  lemma FailedPageContributesNothing(xs: seq<Option<Page>>, ys: seq<Option<Page>>)
    ensures AllRecords(xs + [None] + ys) == AllRecords(xs + ys)
  {
    PageContributionsAppend(xs + [None], ys);
    PageContributionsAppend(xs, [None]);
    PageContributionsAppend(xs, ys);
    assert PageContributions([None]) == [[]];
    ConcatAround(PageContributions(xs), [], PageContributions(ys));
  }
}
