/**
 * The translatable-string extractor (gtextr.py): a scan over the lines of the
 * source files that emits one gettext catalog entry per newly seen message id.
 *
 * The scan is modelled as a fold over the sequence of all lines of all files
 * ("sites"), each tagged with its file and its 1-based line number, threading
 * the shared set of message ids already extracted. Every site yields at most
 * one entry; the catalog is a fixed header followed by the entries in order.
 */
module Extract {
  import opened Wrappers
  import CallPattern

  /** A source file as the scan sees it: its path and its lines, in order. */
  datatype SourceFile = SourceFile(path: string, lines: seq<string>)

  /** One line of one file, with its 1-based line number. */
  datatype Site = Site(path: string, lineNo: nat, text: string)

  /** A catalog entry. A plural entry carries the captured id as both its
      singular and its plural message id. */
  datatype Entry =
    | Singular(path: string, lineNo: nat, msgid: string)
    | Plural(path: string, lineNo: nat, msgid: string, msgidPlural: string)

  /** The state after one line: the ids extracted so far and what the line emitted. */
  datatype Step = Step(seen: set<string>, entry: Option<Entry>)

  /** The state after a run of lines: the ids extracted so far and, per line, what it emitted. */
  datatype Scanned = Scanned(seen: set<string>, outcomes: seq<Option<Entry>>)

  /** A block of the emitted catalog: the metadata header or one entry. */
  datatype Block = Header(fields: seq<(string, string)>) | Item(entry: Entry)

  /** The metadata of the catalog header, as name/value pairs. */
  const HeaderFields: seq<(string, string)> := [
    ("Project-Id-Version", "gtextr.py"),
    ("POT-Creation-Date", "2021-08-29 13:00+0000"),
    ("PO-Revision-Date", "YEAR-MO-DA HO:MI+ZONE"),
    ("MIME-Version", "1.0"),
    ("Content-Type", "text/plain; charset=utf-8"),
    ("Content-Transfer-Encoding", "8bit")
  ]

  // ---------------------------------------------------------------------------
  // Line numbering

  /** The lines of a file numbered from `n + 1` on. */
  function Number(path: string, lines: seq<string>, n: nat): (r: seq<Site>)
    ensures |r| == |lines|
    ensures forall k :: 0 <= k < |r| ==> r[k] == Site(path, n + k + 1, lines[k])
    decreases |lines|
  {
    if lines == [] then []
    else [Site(path, n + 1, lines[0])] + Number(path, lines[1..], n + 1)
  }

  /** The sites of one file: its lines numbered 1, 2, 3, ... */
  function SitesOf(f: SourceFile): seq<Site> {
    Number(f.path, f.lines, 0)
  }

  /** The sites of all files, file after file. */
  function Sites(files: seq<SourceFile>): seq<Site>
    decreases |files|
  {
    if files == [] then [] else SitesOf(files[0]) + Sites(files[1..])
  }

  /** The number of lines in all files. */
  function LineCount(files: seq<SourceFile>): nat
    decreases |files|
  {
    if files == [] then 0 else |files[0].lines| + LineCount(files[1..])
  }

  /** Reading the files one after the other reads their sites one after the other. */
  lemma {:induction false} SitesAppend(a: seq<SourceFile>, b: seq<SourceFile>)
    ensures Sites(a + b) == Sites(a) + Sites(b)
    decreases |a|
  {
    if a == [] {
      assert a + b == b;
    } else {
      assert (a + b)[1..] == a[1..] + b;
      SitesAppend(a[1..], b);
    }
  }

  /** Line `k + 1` of file `i` is the site right after all lines of the earlier
      files: numbering restarts at 1 in each file and goes up by one per line. */
  lemma {:induction false} SiteOfLine(files: seq<SourceFile>, i: nat, k: nat)
    requires i < |files| && k < |files[i].lines|
    ensures LineCount(files[..i]) + k < |Sites(files)|
    ensures Sites(files)[LineCount(files[..i]) + k] == Site(files[i].path, k + 1, files[i].lines[k])
    decreases i
  {
    if i == 0 {
      assert files[..0] == [];
    } else {
      assert files[1..][..i - 1] == files[..i][1..];
      SiteOfLine(files[1..], i - 1, k);
      assert files[1..][i - 1] == files[i];
    }
  }

  // ---------------------------------------------------------------------------
  // One line

  /** A line together with what the two searches capture on it. Both searches are
      pure, so running them up front changes nothing. */
  datatype Offer = Offer(site: Site, plural: Option<string>, singular: Option<string>)

  /** Runs the plural and the singular search on one line. */
  function Classify(site: Site): Offer {
    Offer(site, CallPattern.PluralId(site.text), CallPattern.SingularId(site.text))
  }

  /** Runs both searches on every line. */
  function ClassifyAll(sites: seq<Site>): (r: seq<Offer>)
    ensures |r| == |sites|
    decreases |sites|
  {
    if sites == [] then [] else [Classify(sites[0])] + ClassifyAll(sites[1..])
  }

  lemma {:induction false} ClassifyAllAt(sites: seq<Site>, k: nat)
    requires k < |sites|
    ensures ClassifyAll(sites)[k] == Classify(sites[k])
    decreases k
  {
    if k > 0 {
      ClassifyAllAt(sites[1..], k - 1);
    }
  }

  /** What one line contributes: the plural capture when it is new; otherwise the
      singular capture when that is new; otherwise nothing. */
  function ProcessLine(seen: set<string>, o: Offer): (r: Step)
    ensures r.entry.Some? ==> r.entry.value.path == o.site.path && r.entry.value.lineNo == o.site.lineNo
    ensures r.entry.Some? ==> r.entry.value.msgid !in seen && r.seen == seen + {r.entry.value.msgid}
    ensures r.entry.None? ==> r.seen == seen
    ensures (r.entry.Some? && r.entry.value.Plural?) <==> (o.plural.Some? && o.plural.value !in seen)
    ensures r.entry.Some? && r.entry.value.Plural? ==>
              o.plural == Some(r.entry.value.msgid) && r.entry.value.msgidPlural == r.entry.value.msgid
    ensures r.entry.Some? && r.entry.value.Singular? ==> o.singular == Some(r.entry.value.msgid)
    ensures r.entry.None? ==> o.singular.None? || o.singular.value in seen
  {
    if o.plural.Some? && o.plural.value !in seen then
      Step(seen + {o.plural.value}, Some(Plural(o.site.path, o.site.lineNo, o.plural.value, o.plural.value)))
    else if o.singular.Some? && o.singular.value !in seen then
      Step(seen + {o.singular.value}, Some(Singular(o.site.path, o.site.lineNo, o.singular.value)))
    else
      Step(seen, None)
  }

  // ---------------------------------------------------------------------------
  // The scan

  /** The message ids of the entries among `outs`. */
  function IdsOf(outs: seq<Option<Entry>>): (r: set<string>)
    ensures forall k :: 0 <= k < |outs| && outs[k].Some? ==> outs[k].value.msgid in r
    ensures forall x :: x in r ==> exists k :: 0 <= k < |outs| && outs[k].Some? && outs[k].value.msgid == x
    decreases |outs|
  {
    if outs == [] then {}
    else (if outs[0].Some? then {outs[0].value.msgid} else {}) + IdsOf(outs[1..])
  }

  /** Folds `ProcessLine` over the lines, starting from the ids in `seen`. */
  function Scan(seen: set<string>, offers: seq<Offer>): (r: Scanned)
    ensures |r.outcomes| == |offers|
    decreases |offers|
  {
    if offers == [] then Scanned(seen, [])
    else
      var st := ProcessLine(seen, offers[0]);
      var rest := Scan(st.seen, offers[1..]);
      Scanned(rest.seen, [st.entry] + rest.outcomes)
  }

  /** What the scan keeps invariant: the extracted set only grows and ends up
      holding exactly the ids of the emitted entries; every entry is new, is tagged
      with the file and line of its site, and no two entries share an id. */
  lemma {:induction false} ScanInvariants(seen: set<string>, offers: seq<Offer>)
    ensures seen <= Scan(seen, offers).seen
    ensures Scan(seen, offers).seen == seen + IdsOf(Scan(seen, offers).outcomes)
    ensures forall k :: 0 <= k < |offers| && Scan(seen, offers).outcomes[k].Some? ==>
              && Scan(seen, offers).outcomes[k].value.msgid !in seen
              && Scan(seen, offers).outcomes[k].value.path == offers[k].site.path
              && Scan(seen, offers).outcomes[k].value.lineNo == offers[k].site.lineNo
    ensures forall j, k :: (0 <= j < k < |offers| && Scan(seen, offers).outcomes[j].Some? &&
              Scan(seen, offers).outcomes[k].Some?) ==>
              Scan(seen, offers).outcomes[j].value.msgid != Scan(seen, offers).outcomes[k].value.msgid
    decreases |offers|
  {
    if offers != [] {
      var st := ProcessLine(seen, offers[0]);
      var rest := Scan(st.seen, offers[1..]);
      ScanInvariants(st.seen, offers[1..]);
      var r := Scan(seen, offers);
      assert r == Scanned(rest.seen, [st.entry] + rest.outcomes);
      assert r.outcomes[1..] == rest.outcomes;
      assert IdsOf(r.outcomes) == (if st.entry.Some? then {st.entry.value.msgid} else {}) + IdsOf(rest.outcomes);
      forall k | 1 <= k < |offers|
        ensures r.outcomes[k] == rest.outcomes[k - 1] && offers[k] == offers[1..][k - 1]
      {
      }
    }
  }

  /** Scanning two runs of lines in a row is scanning the first, then the second
      from the ids the first left behind: entries come out in input order. */
  lemma {:induction false} ScanAppend(seen: set<string>, a: seq<Offer>, b: seq<Offer>)
    ensures Scan(seen, a + b).outcomes == Scan(seen, a).outcomes + Scan(Scan(seen, a).seen, b).outcomes
    ensures Scan(seen, a + b).seen == Scan(Scan(seen, a).seen, b).seen
    decreases |a|
  {
    if a == [] {
      assert a + b == b;
    } else {
      var st := ProcessLine(seen, a[0]);
      assert (a + b)[1..] == a[1..] + b;
      assert (a + b)[0] == a[0];
      ScanAppend(st.seen, a[1..], b);
    }
  }

  /** The entry for an id sits at the first line where that id was the one the line
      would emit: no earlier line has a plural call capturing it, and an earlier
      line whose singular call captures it emitted a plural entry instead. */
  lemma {:induction false} FirstOccurrence(seen: set<string>, offers: seq<Offer>, k: nat)
    requires k < |offers| && Scan(seen, offers).outcomes[k].Some?
    ensures forall j :: 0 <= j < k ==> offers[j].plural != Some(Scan(seen, offers).outcomes[k].value.msgid)
    ensures forall j :: (0 <= j < k && offers[j].singular == Some(Scan(seen, offers).outcomes[k].value.msgid)) ==>
              Scan(seen, offers).outcomes[j].Some? && Scan(seen, offers).outcomes[j].value.Plural?
    decreases k
  {
    var x := Scan(seen, offers).outcomes[k].value.msgid;
    if k > 0 {
      var st := ProcessLine(seen, offers[0]);
      assert Scan(seen, offers).outcomes[k] == Scan(st.seen, offers[1..]).outcomes[k - 1];
      FirstOccurrence(st.seen, offers[1..], k - 1);
      ScanInvariants(st.seen, offers[1..]);
      assert x !in st.seen;
      forall j | 0 <= j < k
        ensures offers[j].plural != Some(x)
        ensures offers[j].singular == Some(x) ==>
                  Scan(seen, offers).outcomes[j].Some? && Scan(seen, offers).outcomes[j].value.Plural?
      {
        if j > 0 {
          assert offers[j] == offers[1..][j - 1];
          assert Scan(seen, offers).outcomes[j] == Scan(st.seen, offers[1..]).outcomes[j - 1];
        } else {
          assert Scan(seen, offers).outcomes[0] == st.entry;
        }
      }
    }
  }

  /** Every id a line offers ends up extracted: the plural capture always, and the
      singular capture whenever the line did not emit a plural entry. */
  lemma {:induction false} Coverage(seen: set<string>, offers: seq<Offer>, j: nat)
    requires j < |offers|
    ensures offers[j].plural.Some? ==> offers[j].plural.value in Scan(seen, offers).seen
    ensures offers[j].singular.Some? &&
            !(Scan(seen, offers).outcomes[j].Some? && Scan(seen, offers).outcomes[j].value.Plural?) ==>
              offers[j].singular.value in Scan(seen, offers).seen
    decreases j
  {
    var st := ProcessLine(seen, offers[0]);
    var rest := Scan(st.seen, offers[1..]);
    ScanInvariants(st.seen, offers[1..]);
    if j > 0 {
      Coverage(st.seen, offers[1..], j - 1);
      assert offers[j] == offers[1..][j - 1];
      assert Scan(seen, offers).outcomes[j] == rest.outcomes[j - 1];
    } else {
      assert Scan(seen, offers).outcomes[0] == st.entry;
    }
  }

  // ---------------------------------------------------------------------------
  // The catalog

  /** The entry blocks for the lines that emitted an entry, in order. */
  function Items(outs: seq<Option<Entry>>): (r: seq<Block>)
    ensures forall i :: 0 <= i < |r| ==> r[i].Item?
    ensures forall i :: 0 <= i < |r| ==> exists k :: 0 <= k < |outs| && outs[k] == Some(r[i].entry)
    ensures forall k :: 0 <= k < |outs| && outs[k].Some? ==> Item(outs[k].value) in r
    decreases |outs|
  {
    if outs == [] then []
    else (if outs[0].Some? then [Item(outs[0].value)] else []) + Items(outs[1..])
  }

  lemma {:induction false} ItemsAppend(a: seq<Option<Entry>>, b: seq<Option<Entry>>)
    ensures Items(a + b) == Items(a) + Items(b)
    decreases |a|
  {
    if a == [] {
      assert a + b == b;
    } else {
      assert (a + b)[1..] == a[1..] + b;
      ItemsAppend(a[1..], b);
    }
  }

  /** Items keeps the order of `outs`, so distinct ids among the outcomes stay
      distinct among the items. */
  lemma {:induction false} ItemsDistinct(outs: seq<Option<Entry>>)
    requires forall j, k :: 0 <= j < k < |outs| && outs[j].Some? && outs[k].Some? ==>
               outs[j].value.msgid != outs[k].value.msgid
    ensures forall i, l :: 0 <= i < l < |Items(outs)| ==>
              Items(outs)[i].entry.msgid != Items(outs)[l].entry.msgid
    decreases |outs|
  {
    if outs != [] {
      ItemsDistinct(outs[1..]);
      var tail := Items(outs[1..]);
      if outs[0].Some? {
        forall l | 0 <= l < |tail|
          ensures tail[l].entry.msgid != outs[0].value.msgid
        {
          var k :| 0 <= k < |outs[1..]| && outs[1..][k] == Some(tail[l].entry);
          assert outs[k + 1] == outs[1..][k];
        }
      }
    }
  }

  /** The whole run: the header, then the entries in file order and line order. */
  function Catalog(files: seq<SourceFile>): (r: seq<Block>)
    ensures |r| >= 1 && r[0] == Header(HeaderFields)
    ensures forall i :: 1 <= i < |r| ==> r[i].Item?
    ensures forall i, l :: 1 <= i < l < |r| ==> r[i].entry.msgid != r[l].entry.msgid
  {
    var outs := Scan({}, ClassifyAll(Sites(files))).outcomes;
    ScanInvariants({}, ClassifyAll(Sites(files)));
    ItemsDistinct(outs);
    [Header(HeaderFields)] + Items(outs)
  }

  /** After the header, the catalog lists the entries of the scan of all lines. */
  lemma CatalogItems(files: seq<SourceFile>)
    ensures Catalog(files)[1..] == Items(Scan({}, ClassifyAll(Sites(files))).outcomes)
  {
  }

  /** Entries come in file order: the catalog of `a + b` lists the entries of `a`,
      then those `b` adds when scanned with the ids `a` left behind. */
  lemma CatalogAppend(a: seq<SourceFile>, b: seq<SourceFile>)
    ensures Catalog(a + b)[1..] ==
              Catalog(a)[1..] +
              Items(Scan(Scan({}, ClassifyAll(Sites(a))).seen, ClassifyAll(Sites(b))).outcomes)
  {
    CatalogItems(a + b);
    CatalogItems(a);
    SitesAppend(a, b);
    ClassifyAllAppend(Sites(a), Sites(b));
    ScanAppend({}, ClassifyAll(Sites(a)), ClassifyAll(Sites(b)));
    ItemsAppend(Scan({}, ClassifyAll(Sites(a))).outcomes,
                Scan(Scan({}, ClassifyAll(Sites(a))).seen, ClassifyAll(Sites(b))).outcomes);
  }

  /** The entry emitted at line `n` of a scan is what that line's step emitted:
      a plural entry carries the line's plural capture, a singular entry its
      singular capture. */
  lemma OutcomeOrigin(seen: set<string>, offers: seq<Offer>, n: nat)
    requires n < |offers| && Scan(seen, offers).outcomes[n].Some?
    ensures Scan(seen, offers).outcomes[n].value.Plural? ==>
              offers[n].plural == Some(Scan(seen, offers).outcomes[n].value.msgid)
    ensures Scan(seen, offers).outcomes[n].value.Singular? ==>
              offers[n].singular == Some(Scan(seen, offers).outcomes[n].value.msgid)
    ensures Scan(seen, offers).outcomes[n].value.path == offers[n].site.path
    ensures Scan(seen, offers).outcomes[n].value.lineNo == offers[n].site.lineNo
  {
    ScanAppend(seen, offers[..n], offers[n..]);
    assert offers[..n] + offers[n..] == offers;
    var mid := Scan(seen, offers[..n]).seen;
    assert offers[n..] == [offers[n]] + offers[n + 1..];
    assert Scan(seen, offers).outcomes[n] == Scan(mid, offers[n..]).outcomes[0];
    assert Scan(mid, offers[n..]).outcomes[0] == ProcessLine(mid, offers[n]).entry;
  }

  /** Every entry of the catalog was captured on a line of one of the files and
      is tagged with that file and that line's 1-based number. */
  lemma CatalogEntryOrigin(files: seq<SourceFile>, i: nat)
    requires 1 <= i < |Catalog(files)|
    ensures exists fi, k :: 0 <= fi < |files| && 0 <= k < |files[fi].lines| &&
              Catalog(files)[i].entry.path == files[fi].path &&
              Catalog(files)[i].entry.lineNo == k + 1 &&
              (Catalog(files)[i].entry.Plural? ==>
                 CallPattern.PluralId(files[fi].lines[k]) == Some(Catalog(files)[i].entry.msgid)) &&
              (Catalog(files)[i].entry.Singular? ==>
                 CallPattern.SingularId(files[fi].lines[k]) == Some(Catalog(files)[i].entry.msgid))
  {
    var sites := Sites(files);
    var offers := ClassifyAll(sites);
    var outs := Scan({}, offers).outcomes;
    var e := Catalog(files)[i].entry;
    assert Items(outs)[i - 1] == Item(e);
    var n :| 0 <= n < |outs| && outs[n] == Some(e);
    OutcomeOrigin({}, offers, n);
    ClassifyAllAt(sites, n);
    var fi, k := SiteIndex(files, n);
  }

  /** Every site is line `k + 1` of some file `fi`. */
  lemma {:induction false} SiteIndex(files: seq<SourceFile>, n: nat) returns (fi: nat, k: nat)
    requires n < |Sites(files)|
    ensures fi < |files| && k < |files[fi].lines|
    ensures Sites(files)[n] == Site(files[fi].path, k + 1, files[fi].lines[k])
    decreases |files|
  {
    if n < |SitesOf(files[0])| {
      fi, k := 0, n;
    } else {
      var fi', k' := SiteIndex(files[1..], n - |SitesOf(files[0])|);
      fi, k := fi' + 1, k';
    }
  }

  // ---------------------------------------------------------------------------
  // The loops as written

  lemma NumberSnoc(path: string, lines: seq<string>, i: nat)
    requires i < |lines|
    ensures Number(path, lines[..i + 1], 0) == Number(path, lines[..i], 0) + [Site(path, i + 1, lines[i])]
  {
    var l := Number(path, lines[..i + 1], 0);
    var r := Number(path, lines[..i], 0) + [Site(path, i + 1, lines[i])];
    assert |l| == |r|;
    forall k | 0 <= k < |l|
      ensures l[k] == r[k]
    {
      if k < i {
        assert lines[..i + 1][k] == lines[..i][k];
      }
    }
  }

  lemma {:induction false} ClassifyAllAppend(a: seq<Site>, b: seq<Site>)
    ensures ClassifyAll(a + b) == ClassifyAll(a) + ClassifyAll(b)
    decreases |a|
  {
    if a == [] {
      assert a + b == b;
    } else {
      assert (a + b)[1..] == a[1..] + b;
      ClassifyAllAppend(a[1..], b);
    }
  }

  /** Scanning one more line adds that line's step at the end. */
  lemma ScanSnoc(seen: set<string>, offers: seq<Offer>, o: Offer)
    ensures Scan(seen, offers + [o]).outcomes ==
              Scan(seen, offers).outcomes + [ProcessLine(Scan(seen, offers).seen, o).entry]
    ensures Scan(seen, offers + [o]).seen == ProcessLine(Scan(seen, offers).seen, o).seen
  {
    ScanAppend(seen, offers, [o]);
    var st := ProcessLine(Scan(seen, offers).seen, o);
    assert Scan(Scan(seen, offers).seen, [o]) == Scanned(st.seen, [st.entry]);
  }

  /** The body of the line loop: the plural search, and the singular search only
      when the plural one found nothing new; the extracted set grows by the id of
      the entry emitted, if any. */
  method ExtractLine(extracted: set<string>, path: string, i: nat, line: string)
    returns (entry: Option<Entry>, extracted': set<string>)
    ensures Step(extracted', entry) == ProcessLine(extracted, Classify(Site(path, i, line)))
  {
    entry := None;
    extracted' := extracted;
    var p := CallPattern.PluralId(line);
    if p.Some? && p.value !in extracted {
      entry := Some(Plural(path, i, p.value, p.value));
      extracted' := extracted + {p.value};
    } else {
      var s := CallPattern.SingularId(line);
      if s.Some? && s.value !in extracted {
        entry := Some(Singular(path, i, s.value));
        extracted' := extracted + {s.value};
      }
    }
  }

  /** The line loop over one file, with the counter `i` going 1, 2, 3, ...;
      it returns the entry blocks printed for the file. */
  method ExtractFile(extracted: set<string>, path: string, lines: seq<string>)
    returns (printed: seq<Block>, extracted': set<string>)
    ensures extracted' == Scan(extracted, ClassifyAll(Number(path, lines, 0))).seen
    ensures printed == Items(Scan(extracted, ClassifyAll(Number(path, lines, 0))).outcomes)
  {
    printed := [];
    extracted' := extracted;
    var i := 0;
    assert lines[..0] == [];
    while i < |lines|
      invariant 0 <= i <= |lines|
      invariant extracted' == Scan(extracted, ClassifyAll(Number(path, lines[..i], 0))).seen
      invariant printed == Items(Scan(extracted, ClassifyAll(Number(path, lines[..i], 0))).outcomes)
    {
      ghost var done := ClassifyAll(Number(path, lines[..i], 0));
      ghost var site := Site(path, i + 1, lines[i]);
      var line := lines[i];
      NumberSnoc(path, lines, i);
      i := i + 1;
      var entry, now := ExtractLine(extracted', path, i, line);
      ClassifyAllAppend(Number(path, lines[..i - 1], 0), [site]);
      assert ClassifyAll([site]) == [Classify(site)];
      ScanSnoc(extracted, done, Classify(site));
      ItemsAppend(Scan(extracted, done).outcomes, [entry]);
      extracted' := now;
      if entry.Some? {
        printed := printed + [Item(entry.value)];
      }
    }
    assert lines[..i] == lines;
  }

  /** Scanning one more file continues the scan of the earlier files with that
      file's lines. */
  lemma FileStep(files: seq<SourceFile>, fi: nat)
    requires fi < |files|
    ensures Scan({}, ClassifyAll(Sites(files[..fi + 1]))).seen ==
              Scan(Scan({}, ClassifyAll(Sites(files[..fi]))).seen, ClassifyAll(SitesOf(files[fi]))).seen
    ensures Items(Scan({}, ClassifyAll(Sites(files[..fi + 1]))).outcomes) ==
              Items(Scan({}, ClassifyAll(Sites(files[..fi]))).outcomes) +
              Items(Scan(Scan({}, ClassifyAll(Sites(files[..fi]))).seen, ClassifyAll(SitesOf(files[fi]))).outcomes)
  {
    var done := ClassifyAll(Sites(files[..fi]));
    var more := ClassifyAll(SitesOf(files[fi]));
    SitesAppend(files[..fi], [files[fi]]);
    assert files[..fi + 1] == files[..fi] + [files[fi]];
    assert Sites([files[fi]]) == SitesOf(files[fi]) + Sites([]);
    assert Sites(files[..fi + 1]) == Sites(files[..fi]) + SitesOf(files[fi]);
    ClassifyAllAppend(Sites(files[..fi]), SitesOf(files[fi]));
    ScanAppend({}, done, more);
    ItemsAppend(Scan({}, done).outcomes, Scan(Scan({}, done).seen, more).outcomes);
  }

  /** The extractor's file loop: each file's entries in turn, all files sharing
      one extracted set, after the header. It computes `Catalog`. */
  method RunExtractor(files: seq<SourceFile>) returns (out: seq<Block>)
    ensures out == Catalog(files)
  {
    var header := [Header(HeaderFields)];
    var extracted: set<string> := {};
    var body: seq<Block> := [];
    var fi := 0;
    while fi < |files|
      invariant 0 <= fi <= |files|
      invariant extracted == Scan({}, ClassifyAll(Sites(files[..fi]))).seen
      invariant body == Items(Scan({}, ClassifyAll(Sites(files[..fi]))).outcomes)
    {
      var printed, now := ExtractFile(extracted, files[fi].path, files[fi].lines);
      FileStep(files, fi);
      body := body + printed;
      extracted := now;
      fi := fi + 1;
    }
    assert files[..fi] == files;
    out := header + body;
  }
}
