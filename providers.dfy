/** `NBNProviderScraper.parse_providers`: one pass over the provider-item
    containers of a page, building a partial record per container and
    appending it to the scraper's persistent `providers` list. */
module Providers {
  import opened Wrappers
  import opened Text

  /** The first `a` element of a container; `href` is `None` when the
      element has no `href` attribute. */
  datatype Anchor = Anchor(href: Option<string>)

  /** What the HTML lookups find inside one `div.rsplist-item`: the text of
      the first `div.name`, the text of the first `span.rsplist-phone` and
      the first `a`, each `None` when there is no such element. */
  datatype Container = Container(nameText: Option<string>, phoneText: Option<string>, firstAnchor: Option<Anchor>)

  /** The dict built for one container: a key is present exactly when its
      field is `Some`. Keys are always inserted in the order name, phone,
      website. */
  datatype Provider = Provider(name: Option<string>, phone: Option<string>, website: Option<string>)

  /** The number of keys the dict holds. */
  function KeyCount(p: Provider): nat {
    (if p.name.Some? then 1 else 0) + (if p.phone.Some? then 1 else 0) + (if p.website.Some? then 1 else 0)
  }

  /** `provider.values()`, in insertion order: one entry per key present. */
  function Values(p: Provider): (vs: seq<string>)
    ensures |vs| == KeyCount(p) <= 3
    ensures forall v :: v in vs <==> p.name == Some(v) || p.phone == Some(v) || p.website == Some(v)
  {
    (if p.name.Some? then [p.name.value] else [])
    + (if p.phone.Some? then [p.phone.value] else [])
    + (if p.website.Some? then [p.website.value] else [])
  }

  predicate Truthy(o: Option<string>) {
    o.None? || o.value != ""
  }

  /** `all(provider.values())`: every value that is present is non-empty.
      A record with no keys at all passes. */
  predicate Accepted(p: Provider) {
    Truthy(p.name) && Truthy(p.phone) && Truthy(p.website)
  }

  lemma AcceptedIsAllValues(p: Provider)
    ensures Accepted(p) <==> forall v :: v in Values(p) ==> v != ""
  {
    var vs := Values(p);
    assert p.name.Some? ==> p.name.value in vs;
    assert p.phone.Some? ==> p.phone.value in vs;
    assert p.website.Some? ==> p.website.value in vs;
  }

  predicate StrippedOpt(o: Option<string>) {
    o.None? || IsStripped(o.value)
  }

  /** Every value of the record is free of surrounding whitespace. */
  predicate ValuesStripped(p: Provider) {
    StrippedOpt(p.name) && StrippedOpt(p.phone) && StrippedOpt(p.website)
  }

  /** The `href` of the first anchor, when it is present and non-empty
      before stripping. */
  predicate HasWebsite(c: Container) {
    c.firstAnchor.Some? && c.firstAnchor.value.href.Some? && c.firstAnchor.value.href.value != ""
  }

  function StripOpt(o: Option<string>): (r: Option<string>)
    ensures r.Some? <==> o.Some?
    ensures r.Some? ==> IsStripped(r.value)
  {
    match o
    case Some(s) => Some(Strip(s))
    case None => None
  }

  /** The record the loop body builds for one container: name and phone are
      set when their element exists, website only when the first anchor's
      `href` is non-empty; every value is stripped. */
  function Candidate(c: Container): (p: Provider)
    ensures p.name.Some? <==> c.nameText.Some?
    ensures p.phone.Some? <==> c.phoneText.Some?
    ensures p.website.Some? <==> HasWebsite(c)
    ensures ValuesStripped(p)
  {
    Provider(StripOpt(c.nameText), StripOpt(c.phoneText),
             if HasWebsite(c) then StripOpt(c.firstAnchor.value.href) else None)
  }

  /** An accepted record with no `name` key: the log line that follows the
      append reads `provider['name']` and raises `KeyError`, which the
      `except AttributeError` clause does not catch. */
  predicate RaisesKeyError(c: Container)
    ensures RaisesKeyError(c) <==>
      c.nameText.None?
      && (c.phoneText.None? || Strip(c.phoneText.value) != "")
      && (!HasWebsite(c) || Strip(c.firstAnchor.value.href.value) != "")
  {
    Accepted(Candidate(c)) && Candidate(c).name.None?
  }

  /** What one call appends, and whether it ends in `KeyError`. */
  datatype ScanResult = ScanResult(appended: seq<Provider>, raised: bool)

  /** The effect of running the loop over `cs`: accepted candidates are
      appended in document order; the first nameless accepted candidate is
      appended and then stops the loop with `KeyError`. */
  function Scan(cs: seq<Container>): (r: ScanResult)
    ensures |r.appended| <= |cs|
  {
    if cs == [] then ScanResult([], false)
    else
      var r := Scan(cs[..|cs| - 1]);
      var p := Candidate(cs[|cs| - 1]);
      if r.raised then r
      else if Accepted(p) then ScanResult(r.appended + [p], p.name.None?)
      else r
  }

  /** Every record the loop appends passed `all(provider.values())` and
      holds only stripped values. */
  lemma {:induction false} ScanKeepsOnlyAccepted(cs: seq<Container>)
    ensures forall p :: p in Scan(cs).appended ==> Accepted(p) && ValuesStripped(p)
  {
    if cs != [] {
      var init := cs[..|cs| - 1];
      var c := cs[|cs| - 1];
      ScanKeepsOnlyAccepted(init);
    }
  }

  /** Reference definition: the accepted candidates of `cs`, in order. */
  function AcceptedCandidates(cs: seq<Container>): seq<Provider> {
    if cs == [] then []
    else (if Accepted(Candidate(cs[0])) then [Candidate(cs[0])] else []) + AcceptedCandidates(cs[1..])
  }

  lemma {:induction false} AcceptedCandidatesSnoc(cs: seq<Container>, c: Container)
    ensures AcceptedCandidates(cs + [c])
         == AcceptedCandidates(cs) + (if Accepted(Candidate(c)) then [Candidate(c)] else [])
  {
    if cs != [] {
      assert (cs + [c])[1..] == cs[1..] + [c];
      AcceptedCandidatesSnoc(cs[1..], c);
    } else {
      assert [] + [c] == [c];
    }
  }

  /** Once the loop has raised, later containers change nothing. */
  lemma {:induction false} ScanStopsAtRaise(cs: seq<Container>, k: nat)
    requires k <= |cs| && Scan(cs[..k]).raised
    ensures Scan(cs) == Scan(cs[..k])
  {
    if k < |cs| {
      assert cs[..|cs| - 1][..k] == cs[..k];
      ScanStopsAtRaise(cs[..|cs| - 1], k);
    } else {
      assert cs[..k] == cs;
    }
  }

  /** The loop raises exactly when some container yields a nameless
      accepted record. */
  lemma {:induction false} ScanRaisesIff(cs: seq<Container>)
    ensures Scan(cs).raised <==> exists i :: 0 <= i < |cs| && RaisesKeyError(cs[i])
  {
    if cs != [] {
      var init := cs[..|cs| - 1];
      ScanRaisesIff(init);
      assert forall i :: 0 <= i < |init| ==> init[i] == cs[i];
      if Scan(cs).raised && !Scan(init).raised {
        assert RaisesKeyError(cs[|cs| - 1]);
      }
    }
  }

  /** When nothing raises, exactly the accepted candidates are appended, in
      document order: a candidate is kept iff every value it has is
      non-empty. */
  lemma {:induction false} ScanAppendsAccepted(cs: seq<Container>)
    requires !Scan(cs).raised
    ensures Scan(cs).appended == AcceptedCandidates(cs)
  {
    if cs != [] {
      var init, c := cs[..|cs| - 1], cs[|cs| - 1];
      assert !Scan(init).raised;
      ScanAppendsAccepted(init);
      AcceptedCandidatesSnoc(init, c);
      assert init + [c] == cs;
    }
  }

  /** A container is complete when it has all three elements and each
      value is non-empty after stripping. */
  predicate Complete(c: Container) {
    c.nameText.Some? && c.phoneText.Some? && HasWebsite(c)
    && Strip(c.nameText.value) != "" && Strip(c.phoneText.value) != ""
    && Strip(c.firstAnchor.value.href.value) != ""
  }

  lemma CompleteIsKept(c: Container)
    requires Complete(c)
    ensures Accepted(Candidate(c)) && Candidate(c).name.Some?
  {
  }

  /** `Candidate` applied to every container, in document order. */
  function Candidates(cs: seq<Container>): (ps: seq<Provider>)
    ensures |ps| == |cs|
    ensures forall i :: 0 <= i < |cs| ==> ps[i] == Candidate(cs[i])
  {
    if cs == [] then [] else Candidates(cs[..|cs| - 1]) + [Candidate(cs[|cs| - 1])]
  }

  /** A page of complete containers yields one record per container, in
      order, and does not raise. */
  lemma {:induction false} CompleteContainersAllKept(cs: seq<Container>)
    requires forall i :: 0 <= i < |cs| ==> Complete(cs[i])
    ensures Scan(cs) == ScanResult(Candidates(cs), false)
  {
    if cs != [] {
      var init := cs[..|cs| - 1];
      assert forall i :: 0 <= i < |init| ==> init[i] == cs[i];
      CompleteContainersAllKept(init);
      CompleteIsKept(cs[|cs| - 1]);
    }
  }

  /** The raw texts of a complete container carry no surrounding
      whitespace. */
  predicate Clean(c: Container)
    requires Complete(c)
  {
    IsStripped(c.nameText.value) && IsStripped(c.phoneText.value) && IsStripped(c.firstAnchor.value.href.value)
  }

  /** The record of a complete container holds its raw texts exactly when
      they carry no surrounding whitespace. */
  lemma CleanCandidate(c: Container)
    requires Complete(c)
    ensures Clean(c) <==> Candidate(c) == Provider(c.nameText, c.phoneText, c.firstAnchor.value.href)
  {
    if Clean(c) {
      StripKeepsStripped(c.nameText.value);
      StripKeepsStripped(c.phoneText.value);
      StripKeepsStripped(c.firstAnchor.value.href.value);
    }
  }

  /** Two complete containers yield exactly their two records, in order;
      each record holds its container's texts unchanged when they are clean. */
  lemma TwoCompleteContainers(c1: Container, c2: Container)
    requires Complete(c1) && Complete(c2)
    ensures Scan([c1, c2]) == ScanResult([Candidate(c1), Candidate(c2)], false)
    ensures Clean(c1) ==> Scan([c1, c2]).appended[0] == Provider(c1.nameText, c1.phoneText, c1.firstAnchor.value.href)
    ensures Clean(c2) ==> Scan([c1, c2]).appended[1] == Provider(c2.nameText, c2.phoneText, c2.firstAnchor.value.href)
  {
    CompleteIsKept(c1);
    CompleteIsKept(c2);
    assert [c1][..0] == [];
    assert Scan([c1]) == ScanResult([Candidate(c1)], false);
    assert [c1, c2][..1] == [c1];
    assert Scan([c1, c2]) == ScanResult([Candidate(c1)] + [Candidate(c2)], false);
    CleanCandidate(c1);
    CleanCandidate(c2);
  }

  /** A container whose three elements hold `name`, `phone` and `href`. */
  function FullContainer(name: string, phone: string, href: string): Container {
    Container(Some(name), Some(phone), Some(Anchor(Some(href))))
  }

  /** The two-provider page of the parser's test: both providers are
      recorded, in page order, with their texts as written. */
  lemma TestPageParsed()
    ensures Scan([FullContainer("Test Provider", "1234567890", "https://www.testprovider.com"),
                  FullContainer("Another Provider", "0987654321", "https://www.anotherprovider.com")])
         == ScanResult([Provider(Some("Test Provider"), Some("1234567890"), Some("https://www.testprovider.com")),
                        Provider(Some("Another Provider"), Some("0987654321"), Some("https://www.anotherprovider.com"))], false)
  {
    var c1 := FullContainer("Test Provider", "1234567890", "https://www.testprovider.com");
    var c2 := FullContainer("Another Provider", "0987654321", "https://www.anotherprovider.com");
    CleanComplete(c1);
    CleanComplete(c2);
    TwoCompleteContainers(c1, c2);
  }

  /** A container whose three texts are non-empty and clean is complete. */
  lemma CleanComplete(c: Container)
    requires c.nameText.Some? && c.phoneText.Some? && HasWebsite(c)
    requires IsStripped(c.nameText.value) && IsStripped(c.phoneText.value) && IsStripped(c.firstAnchor.value.href.value)
    requires c.nameText.value != "" && c.phoneText.value != ""
    ensures Complete(c) && Clean(c)
  {
    StripKeepsStripped(c.nameText.value);
    StripKeepsStripped(c.phoneText.value);
    StripKeepsStripped(c.firstAnchor.value.href.value);
  }

  /** A container with a non-blank name and no phone or link: `all(...)`
      passes on the one value present, so a record without `phone` and
      `website` is stored, although the corrected filter keeps nothing. */
  lemma IncompleteRecordStored(nameText: string)
    requires Strip(nameText) != ""
    ensures Scan([Container(Some(nameText), None, None)])
         == ScanResult([Provider(Some(Strip(nameText)), None, None)], false)
    ensures CompleteRecords([Container(Some(nameText), None, None)]) == []
  {
    assert [Container(Some(nameText), None, None)][..0] == [];
  }

  /** A container with phone and link but no name div, followed by a
      complete one: the nameless record is stored, the log line raises
      `KeyError`, and the complete provider after it is never recorded. The
      corrected filter drops the first and keeps the second. */
  lemma NamelessRecordAbortsParse(phoneText: string, href: string, later: Container)
    requires Strip(phoneText) != "" && href != "" && Strip(href) != "" && Complete(later)
    ensures var cs := [Container(None, Some(phoneText), Some(Anchor(Some(href)))), later];
      Scan(cs) == ScanResult([Provider(None, Some(Strip(phoneText)), Some(Strip(href)))], true)
      && CompleteRecords(cs) == [CompleteRecord(later).value]
  {
    var first := Container(None, Some(phoneText), Some(Anchor(Some(href))));
    var cs := [first, later];
    assert cs[..1] == [first];
    assert cs[..1][..0] == [];
    ScanStopsAtRaise(cs, 1);
  }

  /** The record the evidently intended filter keeps: all three fields,
      each non-empty after stripping. */
  datatype ProviderRecord = ProviderRecord(name: string, phone: string, website: string)

  /** The corrected loop body: a container yields a record exactly when it
      is complete. */
  function CompleteRecord(c: Container): (r: Option<ProviderRecord>)
    ensures r.Some? <==> Complete(c)
    ensures r.Some? ==> r.value.name != "" && r.value.phone != "" && r.value.website != ""
    ensures r.Some? ==> IsStripped(r.value.name) && IsStripped(r.value.phone) && IsStripped(r.value.website)
  {
    if Complete(c) then
      Some(ProviderRecord(Strip(c.nameText.value), Strip(c.phoneText.value), Strip(c.firstAnchor.value.href.value)))
    else None
  }

  /** The corrected pass: the complete containers' records, in document
      order; it never stops early. */
  function CompleteRecords(cs: seq<Container>): (rs: seq<ProviderRecord>)
    ensures |rs| <= |cs|
    ensures forall r :: r in rs ==> r.name != "" && r.phone != "" && r.website != ""
  {
    if cs == [] then []
    else
      var c := CompleteRecord(cs[|cs| - 1]);
      CompleteRecords(cs[..|cs| - 1]) + (if c.Some? then [c.value] else [])
  }

  /** Every container is processed on its own: what a page yields is what
      its two halves yield, one after the other. */
  lemma {:induction false} CompleteRecordsConcat(a: seq<Container>, b: seq<Container>)
    ensures CompleteRecords(a + b) == CompleteRecords(a) + CompleteRecords(b)
  {
    if b == [] {
      assert a + b == a;
    } else {
      assert (a + b)[..|a + b| - 1] == a + b[..|b| - 1];
      CompleteRecordsConcat(a, b[..|b| - 1]);
    }
  }

  function AsProvider(r: ProviderRecord): Provider {
    Provider(Some(r.name), Some(r.phone), Some(r.website))
  }

  /** `AsProvider` applied to every record, in order. */
  function AsProviders(rs: seq<ProviderRecord>): (ps: seq<Provider>)
    ensures |ps| == |rs|
    ensures forall i :: 0 <= i < |rs| ==> ps[i] == AsProvider(rs[i])
  {
    if rs == [] then [] else AsProviders(rs[..|rs| - 1]) + [AsProvider(rs[|rs| - 1])]
  }

  /** An anchor without `href` is not enough: the record is stored without
      `website`, while the corrected filter keeps nothing. */
  lemma HreflessAnchorDiffers()
    ensures Scan([Container(Some("X"), Some("1"), Some(Anchor(None)))])
         == ScanResult([Provider(Some("X"), Some("1"), None)], false)
    ensures CompleteRecords([Container(Some("X"), Some("1"), Some(Anchor(None)))]) == []
  {
    StripKeepsStripped("X");
    StripKeepsStripped("1");
    var cs := [Container(Some("X"), Some("1"), Some(Anchor(None)))];
    assert cs[..0] == [];
  }

  /** On a page where every container has a name div, a phone span and a
      first anchor with a non-empty `href`, the code as written and the
      corrected filter agree record for record. */
  lemma {:induction false} CorrectionAgreesOnFullContainers(cs: seq<Container>)
    requires forall i :: 0 <= i < |cs| ==> cs[i].nameText.Some? && cs[i].phoneText.Some? && HasWebsite(cs[i])
    ensures Scan(cs) == ScanResult(AsProviders(CompleteRecords(cs)), false)
  {
    if cs != [] {
      var init := cs[..|cs| - 1];
      assert forall i :: 0 <= i < |init| ==> init[i] == cs[i];
      CorrectionAgreesOnFullContainers(init);
      var c := cs[|cs| - 1];
      var r := CompleteRecord(c);
      assert Accepted(Candidate(c)) <==> r.Some?;
      if r.Some? {
        var rs := CompleteRecords(init);
        assert Candidate(c) == AsProvider(r.value);
        assert (rs + [r.value])[..|rs|] == rs;
      }
    }
  }

  /** The loop body's field-by-field construction of the dict. */
  method BuildCandidate(c: Container) returns (provider: Provider)
    ensures provider == Candidate(c)
  {
    var name := None;
    if c.nameText.Some? {
      name := Some(Strip(c.nameText.value));
    }
    var phone := None;
    if c.phoneText.Some? {
      phone := Some(Strip(c.phoneText.value));
    }
    var website := None;
    if c.firstAnchor.Some? && c.firstAnchor.value.href.Some? && c.firstAnchor.value.href.value != "" {
      website := Some(Strip(c.firstAnchor.value.href.value));
    }
    provider := Provider(name, phone, website);
  }

  /** How `parse_providers` ends. */
  datatype ParseOutcome =
    | NoProviderElements  // warning logged, list untouched
    | Parsed              // every container processed
    | KeyErrorRaised      // the log line after an append raised

  /** The scraper object; only its `providers` list is modelled. */
  class ProviderScraper {
    var providers: seq<Provider>

    constructor ()
      ensures providers == []
    {
      providers := [];
    }

    /** `parse_providers(html)`, with the page already reduced to its
        provider-item containers in document order. */
    method ParseProviders(containers: seq<Container>) returns (outcome: ParseOutcome)
      modifies this
      ensures containers == [] ==> outcome == NoProviderElements && providers == old(providers)
      ensures containers != [] ==>
        providers == old(providers) + Scan(containers).appended
        && outcome == (if Scan(containers).raised then KeyErrorRaised else Parsed)
    {
      if |containers| == 0 {
        return NoProviderElements;
      }
      var i := 0;
      while i < |containers|
        invariant 0 <= i <= |containers|
        invariant providers == old(providers) + Scan(containers[..i]).appended
        invariant !Scan(containers[..i]).raised
      {
        var c := containers[i];
        assert containers[..i + 1][..i] == containers[..i];
        var provider := BuildCandidate(c);
        if Accepted(provider) {
          providers := providers + [provider];
          if provider.name.None? {
            ScanStopsAtRaise(containers, i + 1);
            return KeyErrorRaised;
          }
        }
        i := i + 1;
      }
      assert containers[..i] == containers;
      outcome := Parsed;
    }
  }
}
