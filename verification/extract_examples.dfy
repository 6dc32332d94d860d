/**
 * Worked examples of the extractor on small inputs. Most lemmas take their
 * input as a parameter pinned to a literal by `requires`; this keeps the
 * solver from unfolding the search functions on the literal too eagerly.
 */
module ExtractExamples {
  import opened Wrappers
  import CallPattern
  import opened Extract

  /** A line without the letter `n` cannot hold a plural call. */
  lemma NoPluralWithoutN(line: string)
    requires 'n' !in line
    ensures CallPattern.PluralId(line) == None
  {
    forall t: nat
      ensures !CallPattern.OpensAt(line, CallPattern.PluralPrefix, t)
    {
      if t + 9 < |line| {
        assert line[t..t + 9][0] == line[t];
        assert line[t] != 'n';
      }
    }
  }

  lemma HelloLine(line: string)
    requires line == "gettext('hello')\n"
    ensures CallPattern.PluralId(line) == None
    ensures CallPattern.SingularId(line) == Some("hello")
  {
    NoPluralWithoutN(line);
    assert |line| == 17 && line[14] == '\'' && line[15] == ')';
    assert line[9..14] == "hello";
    assert line[0..8] == CallPattern.SingularPrefix;
    CallPattern.LastEndIs(line, 9, 17, 14);
    CallPattern.SearchAt(line, CallPattern.SingularPrefix, 0, 14);
  }

  lemma ItemLineChars(line: string)
    requires line == "ngettext('item', 'items')\n"
    ensures |line| == 26 && line[23] == '\'' && line[24] == ')'
    ensures line[10..23] == "item', 'items"
  {
  }

  lemma ItemLine(line: string)
    requires line == "ngettext('item', 'items')\n"
    ensures CallPattern.PluralId(line) == Some("item', 'items")
    ensures CallPattern.SingularId(line) == Some("item', 'items")
  {
    ItemLineChars(line);
    assert line[0..9] == CallPattern.PluralPrefix && line[1..9] == CallPattern.SingularPrefix;
    CallPattern.LastEndIs(line, 10, 26, 23);
    CallPattern.SearchAt(line, CallPattern.PluralPrefix, 0, 23);
    assert line[0..8][0] == 'n';
    CallPattern.SearchAt(line, CallPattern.SingularPrefix, 1, 23);
  }

  /** One file with a singular call on line 1 and a two-argument plural call on
      line 2: after the header come a singular entry, then a plural entry whose id
      is the greedy capture spanning both arguments. */
  lemma SingularThenPlural(f: SourceFile)
    requires f == SourceFile("lib/main.dart", ["gettext('hello')\n", "ngettext('item', 'items')\n"])
    ensures Catalog([f])[1..] ==
              [Item(Singular("lib/main.dart", 1, "hello")),
               Item(Plural("lib/main.dart", 2, "item', 'items", "item', 'items"))]
  {
    var offers := TwoLineOffers(f);
    var outs := TwoLineScan(offers);
    CatalogItems([f]);
  }

  lemma TwoLineScan(offers: seq<Offer>) returns (outs: seq<Option<Entry>>)
    requires offers == [Offer(Site("lib/main.dart", 1, "gettext('hello')\n"), None, Some("hello")),
                        Offer(Site("lib/main.dart", 2, "ngettext('item', 'items')\n"), Some("item', 'items"),
                              Some("item', 'items"))]
    ensures Scan({}, offers).outcomes == outs
    ensures Items(outs) == [Item(Singular("lib/main.dart", 1, "hello")),
                            Item(Plural("lib/main.dart", 2, "item', 'items", "item', 'items"))]
  {
    var e1 := Singular("lib/main.dart", 1, "hello");
    var e2 := Plural("lib/main.dart", 2, "item', 'items", "item', 'items");
    assert offers[1..] == [offers[1]];
    assert ProcessLine({}, offers[0]) == Step({"hello"}, Some(e1));
    assert ProcessLine({"hello"}, offers[1]) == Step({"hello", "item', 'items"}, Some(e2));
    assert Scan({"hello"}, offers[1..]).outcomes == [Some(e2)];
    outs := [Some(e1), Some(e2)];
    assert outs[1..] == [outs[1]];
    assert [outs[1]][1..] == [];
    assert Items([outs[1]]) == [Item(outs[1].value)] + Items([]);
  }

  /** The sites of a single two-line file. */
  lemma TwoLineSites(f: SourceFile)
    requires |f.lines| == 2
    ensures Sites([f]) == [Site(f.path, 1, f.lines[0]), Site(f.path, 2, f.lines[1])]
  {
    assert Sites([f]) == SitesOf(f) + Sites([]);
  }

  lemma ClassifyTwo(a: Site, b: Site)
    ensures ClassifyAll([a, b]) == [Classify(a), Classify(b)]
  {
    assert [a, b][1..] == [b];
    assert [b][1..] == [];
  }

  lemma TwoLineOffers(f: SourceFile) returns (offers: seq<Offer>)
    requires f == SourceFile("lib/main.dart", ["gettext('hello')\n", "ngettext('item', 'items')\n"])
    ensures ClassifyAll(Sites([f])) == offers
    ensures offers == [Offer(Site("lib/main.dart", 1, "gettext('hello')\n"), None, Some("hello")),
                       Offer(Site("lib/main.dart", 2, "ngettext('item', 'items')\n"), Some("item', 'items"),
                             Some("item', 'items"))]
  {
    var s1 := Site(f.path, 1, f.lines[0]);
    var s2 := Site(f.path, 2, f.lines[1]);
    TwoLineSites(f);
    ClassifyTwo(s1, s2);
    HelloLine(f.lines[0]);
    ItemLine(f.lines[1]);
    offers := [Classify(s1), Classify(s2)];
  }

  lemma HiLine(line: string)
    requires line == "gettext('hi')"
    ensures CallPattern.PluralId(line) == None
    ensures CallPattern.SingularId(line) == Some("hi")
  {
    NoPluralWithoutN(line);
    assert |line| == 13 && line[11] == '\'' && line[12] == ')';
    assert line[9..11] == "hi";
    assert line[0..8] == CallPattern.SingularPrefix;
    CallPattern.LastEndIs(line, 9, 13, 11);
    CallPattern.SearchAt(line, CallPattern.SingularPrefix, 0, 11);
  }

  lemma DuplicateOffers() returns (offers: seq<Offer>)
    ensures ClassifyAll(Sites([SourceFile("lib/a.dart", ["gettext('hi')"]), SourceFile("lib/b.dart", ["gettext('hi')"])])) == offers
    ensures offers == [Offer(Site("lib/a.dart", 1, "gettext('hi')"), None, Some("hi")),
                       Offer(Site("lib/b.dart", 1, "gettext('hi')"), None, Some("hi"))]
  {
    var line := "gettext('hi')";
    HiLine(line);
    var fa := SourceFile("lib/a.dart", [line]);
    var fb := SourceFile("lib/b.dart", [line]);
    var sites := [Site(fa.path, 1, line), Site(fb.path, 1, line)];
    assert Sites([fa, fb]) == sites by {
      assert [fa, fb][1..] == [fb];
      assert Sites([fb]) == SitesOf(fb) + Sites([]);
    }
    offers := [Offer(sites[0], None, Some("hi")), Offer(sites[1], None, Some("hi"))];
    assert ClassifyAll(sites) == offers;
  }

  /** The same message in two files yields one entry, tagged with the first file. */
  lemma DuplicateAcrossFiles()
    ensures Catalog([SourceFile("lib/a.dart", ["gettext('hi')"]), SourceFile("lib/b.dart", ["gettext('hi')"])])[1..] ==
              [Item(Singular("lib/a.dart", 1, "hi"))]
  {
    var offers := DuplicateOffers();
    var e := Singular("lib/a.dart", 1, "hi");
    assert Scan({}, offers).outcomes == [Some(e), None];
    assert [Some(e), None][1..] == [None];
    assert Items([None]) == [];
    assert Items([Some(e), None]) == [Item(e)];
  }
}
