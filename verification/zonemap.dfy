/**
 * The zone-map step of the timezone snapshot builder (assets/mktzdata.py):
 * from the version directory's name and the regular files under the installed
 * zoneinfo tree, build the map that is written out as JSON.
 *
 * `_tzdb` maps to the directory name without its `tzdb-` prefix. Every file
 * whose first line begins with the bytes `TZif2` adds an entry keyed by its
 * path with the 29-character root prefix dropped, whose value is the file's
 * last line, decoded and with surrounding whitespace stripped.
 */
module ZoneMap {
  import opened Wrappers
  import KeyOrder
  import Utf8

  type Byte = Utf8.Byte

  /** A regular file of the installed tree: its path and its lines as `readlines`
      returns them, each line keeping its newline byte. */
  datatype ZoneFile = ZoneFile(path: string, lines: seq<seq<Byte>>)

  /** What aborts the build: reading the first line of a file with no lines
      (`IndexError`), or decoding the last line of a signed file that is not
      valid UTF-8 (`UnicodeDecodeError`). */
  datatype ZoneError = EmptyZoneFile(path: string) | UndecodableFooter(path: string)

  const ZoneRoot: string := "tzdb-root/usr/share/zoneinfo/"
  /** The number of characters cut from every path to form its key. */
  const KeyOffset: nat := 29
  /** The number of characters cut from the version directory's name. */
  const VersionOffset: nat := 5
  const VersionKey: string := "_tzdb"
  /** The bytes `TZif2`. */
  const Signature: seq<Byte> := [0x54, 0x5A, 0x69, 0x66, 0x32]

  // ---------------------------------------------------------------------------
  // Python slicing, decoding and stripping

  /** `s[:n]`: the first `n` elements, or all of `s` when it is shorter. */
  function Take<T>(s: seq<T>, n: nat): (r: seq<T>)
    ensures n <= |s| ==> |r| == n
    ensures |s| <= n ==> r == s
    ensures r <= s
  {
    if n <= |s| then s[..n] else s
  }

  /** `s[n:]`: all but the first `n` elements, or nothing when `s` is shorter. */
  function Drop<T>(s: seq<T>, n: nat): (r: seq<T>)
    ensures n <= |s| ==> s == s[..n] + r
    ensures |s| <= n ==> r == []
  {
    if n <= |s| then s[n..] else []
  }

  /** The characters Python's `str.isspace` accepts, which are the ones
      `str.strip()` removes: the ASCII controls 9-13 and 28-31, the space, and
      the Unicode spaces and line and paragraph separators. */
  predicate IsSpace(c: char) {
    var x := c as int;
    || (0x09 <= x <= 0x0D) || (0x1C <= x <= 0x20) || x == 0x85 || x == 0xA0
    || x == 0x1680 || (0x2000 <= x <= 0x200A) || x == 0x2028 || x == 0x2029
    || x == 0x202F || x == 0x205F || x == 0x3000
  }

  /** The first index at or after `i` that is not whitespace. */
  function SkipSpaces(s: string, i: nat): (k: nat)
    requires i <= |s|
    ensures i <= k <= |s|
    ensures forall m :: i <= m < k ==> IsSpace(s[m])
    ensures k < |s| ==> !IsSpace(s[k])
    decreases |s| - i
  {
    if i < |s| && IsSpace(s[i]) then SkipSpaces(s, i + 1) else i
  }

  /** The end of `s[lo..j]` once trailing whitespace is cut off. */
  function BackSpaces(s: string, lo: nat, j: nat): (k: nat)
    requires lo <= j <= |s|
    ensures lo <= k <= j
    ensures forall m :: k <= m < j ==> IsSpace(s[m])
    ensures lo < k ==> !IsSpace(s[k - 1])
    decreases j
  {
    if lo < j && IsSpace(s[j - 1]) then BackSpaces(s, lo, j - 1) else j
  }

  /** Whitespace-only text. */
  predicate AllSpace(s: string) {
    forall m :: 0 <= m < |s| ==> IsSpace(s[m])
  }

  /** Python's `str.strip()`: the longest middle part of `s` that neither begins
      nor ends with whitespace, with only whitespace cut off around it. */
  function Strip(s: string): (r: string)
    ensures r == [] || (!IsSpace(r[0]) && !IsSpace(r[|r| - 1]))
    ensures exists i :: 0 <= i <= |s| - |r| && s[i..i + |r|] == r && AllSpace(s[..i]) && AllSpace(s[i + |r|..])
  {
    var i := SkipSpaces(s, 0);
    var j := BackSpaces(s, i, |s|);
    assert s[i..i + (j - i)] == s[i..j];
    assert AllSpace(s[..i]) && AllSpace(s[j..]);
    s[i..j]
  }

  /** Stripping text that is already stripped changes nothing. */
  lemma StripIdempotent(s: string)
    ensures Strip(Strip(s)) == Strip(s)
  {
    var t := Strip(s);
    if t != [] {
      assert SkipSpaces(t, 0) == 0;
      assert BackSpaces(t, 0, |t|) == |t|;
    }
  }

  /** Surrounding whitespace is exactly what `Strip` removes. */
  lemma {:induction false} StripPadded(lead: string, t: string, trail: string)
    requires AllSpace(lead) && AllSpace(trail)
    requires t == [] || (!IsSpace(t[0]) && !IsSpace(t[|t| - 1]))
    ensures Strip(lead + t + trail) == t
  {
    var s := lead + t + trail;
    if t != [] {
      SkipLead(s, lead, 0);
      assert s[|lead|] == t[0];
      assert SkipSpaces(s, 0) == |lead|;
      BackTrail(s, |lead|, |lead| + |t|, |s|);
      assert s[|lead| + |t| - 1] == t[|t| - 1];
      assert BackSpaces(s, |lead|, |s|) == |lead| + |t|;
      assert s[|lead|..|lead| + |t|] == t;
    } else {
      assert AllSpace(s);
      SkipLead(s, s, 0);
      assert SkipSpaces(s, 0) == |s|;
    }
  }

  lemma {:induction false} SkipLead(s: string, lead: string, i: nat)
    requires AllSpace(lead) && lead <= s && i <= |lead|
    ensures SkipSpaces(s, i) == SkipSpaces(s, |lead|)
    decreases |lead| - i
  {
    if i < |lead| {
      assert s[i] == lead[i];
      SkipLead(s, lead, i + 1);
    }
  }

  lemma {:induction false} BackTrail(s: string, lo: nat, k: nat, j: nat)
    requires lo <= k <= j <= |s|
    requires forall m :: k <= m < |s| ==> IsSpace(s[m])
    ensures BackSpaces(s, lo, j) == BackSpaces(s, lo, k)
    decreases j
  {
    if k < j {
      BackTrail(s, lo, k, j - 1);
    }
  }

  // ---------------------------------------------------------------------------
  // One file

  /** The first line begins with the signature (`zone[0][:5] == b'TZif2'`). */
  predicate HasSignature(first: seq<Byte>) {
    Take(first, 5) == Signature
  }

  /** The signature test is a prefix test: shorter lines never pass it. */
  lemma HasSignatureIsPrefix(first: seq<Byte>)
    ensures HasSignature(first) <==> |first| >= 5 && first[..5] == Signature
  {
  }

  /** The file is a compiled zone file the build keeps. */
  predicate Signed(f: ZoneFile) {
    |f.lines| > 0 && HasSignature(f.lines[0])
  }

  /** `file[29:]`. */
  function ZoneKey(path: string): string {
    Drop(path, KeyOffset)
  }

  /** The last line, `zone[-1]`. */
  function LastLine(f: ZoneFile): seq<Byte>
    requires |f.lines| > 0
  {
    f.lines[|f.lines| - 1]
  }

  /** The file aborts the build: it has no lines, or it is signed and its last
      line does not decode. */
  predicate Breaks(f: ZoneFile) {
    |f.lines| == 0 || (HasSignature(f.lines[0]) && Utf8.Decode(LastLine(f)).None?)
  }

  /** `zone[-1].decode().strip()`. */
  function ZoneValue(f: ZoneFile): string
    requires |f.lines| > 0 && Utf8.Decode(LastLine(f)).Some?
  {
    Strip(Utf8.Decode(LastLine(f)).value)
  }

  /** The last line of a compiled zone file is its footer rule followed by a
      newline; the entry's value is the rule itself. */
  lemma FooterRuleIsValue(f: ZoneFile, rule: string)
    requires |f.lines| > 0 && LastLine(f) == Utf8.Encode(rule + "\n")
    requires rule == [] || (!IsSpace(rule[0]) && !IsSpace(rule[|rule| - 1]))
    ensures Utf8.Decode(LastLine(f)) == Some(rule + "\n")
    ensures ZoneValue(f) == rule
  {
    Utf8.DecodeEncode(rule + "\n");
    StripPadded("", rule, "\n");
    assert "" + rule + "\n" == rule + "\n";
  }

  /** `dirname[5:]`. */
  function VersionLabel(dirname: string): string {
    Drop(dirname, VersionOffset)
  }

  /** The key offset is the length of the zoneinfo root, so a key is the path
      relative to that root. */
  lemma ZoneKeyIsRelativePath(rel: string)
    ensures |ZoneRoot| == KeyOffset
    ensures ZoneKey(ZoneRoot + rel) == rel
  {
    assert (ZoneRoot + rel)[KeyOffset..] == rel;
  }

  /** Distinct paths under the zoneinfo root have distinct keys. */
  lemma ZoneKeysDistinct(rel1: string, rel2: string)
    requires rel1 != rel2
    ensures ZoneKey(ZoneRoot + rel1) != ZoneKey(ZoneRoot + rel2)
  {
    ZoneKeyIsRelativePath(rel1);
    ZoneKeyIsRelativePath(rel2);
  }

  /** The version label is the directory name after `tzdb-`. */
  lemma VersionLabelDropsPrefix(v: string)
    ensures VersionLabel("tzdb-" + v) == v
  {
    assert ("tzdb-" + v)[VersionOffset..] == v;
  }

  // ---------------------------------------------------------------------------
  // The map

  /** The keys the signed files contribute. */
  function SignedKeys(files: seq<ZoneFile>): set<string> {
    set i | 0 <= i < |files| && Signed(files[i]) :: ZoneKey(files[i].path)
  }

  /** No later signed file writes the same key as file `i`. */
  ghost predicate LastWriter(files: seq<ZoneFile>, i: nat) {
    forall j :: i < j < |files| && Signed(files[j]) ==> ZoneKey(files[j].path) != ZoneKey(files[i].path)
  }

  /** Some file aborts the build. */
  ghost predicate HasBrokenFile(files: seq<ZoneFile>) {
    exists i :: 0 <= i < |files| && Breaks(files[i])
  }

  /** The error a breaking file raises. */
  function BreakError(f: ZoneFile): ZoneError {
    if |f.lines| == 0 then EmptyZoneFile(f.path) else UndecodableFooter(f.path)
  }

  /** One iteration of the file loop on a file that does not abort it: a signed
      file's entry is assigned into the map, replacing any earlier value for its key. */
  function Assign(m: map<string, string>, f: ZoneFile): map<string, string>
    requires !Breaks(f)
  {
    if HasSignature(f.lines[0]) then m[ZoneKey(f.path) := ZoneValue(f)] else m
  }

  /** The file loop, over the files in order. */
  function Collect(m: map<string, string>, files: seq<ZoneFile>): Result<map<string, string>, ZoneError>
    decreases |files|
  {
    if files == [] then Success(m)
    else if |files[0].lines| == 0 then Failure(EmptyZoneFile(files[0].path))
    else if HasSignature(files[0].lines[0]) && Utf8.Decode(LastLine(files[0])).None? then
      Failure(UndecodableFooter(files[0].path))
    else Collect(Assign(m, files[0]), files[1..])
  }

  /** The loop fails exactly when some file breaks it, and then with the error
      of the first such file. */
  lemma {:induction false} CollectFails(m: map<string, string>, files: seq<ZoneFile>)
    ensures Collect(m, files).Failure? <==> HasBrokenFile(files)
    ensures Collect(m, files).Failure? ==>
              exists i :: 0 <= i < |files| && Breaks(files[i]) &&
                Collect(m, files).error == BreakError(files[i]) &&
                forall j :: 0 <= j < i ==> !Breaks(files[j])
    decreases |files|
  {
    if files != [] && !Breaks(files[0]) {
      var tail := files[1..];
      var m' := Assign(m, files[0]);
      CollectFails(m', tail);
      if HasBrokenFile(tail) {
        var i :| 0 <= i < |tail| && Breaks(tail[i]);
        assert files[i + 1] == tail[i];
      }
      if HasBrokenFile(files) {
        var i :| 0 <= i < |files| && Breaks(files[i]);
        assert files[i] == tail[i - 1];
      }
      if Collect(m, files).Failure? {
        var i :| 0 <= i < |tail| && Breaks(tail[i]) &&
                 Collect(m', tail).error == BreakError(tail[i]) &&
                 forall j :: 0 <= j < i ==> !Breaks(tail[j]);
        assert files[i + 1] == tail[i];
        assert forall j :: 1 <= j <= i ==> files[j] == tail[j - 1];
      }
    }
  }

  lemma SignedKeysCons(files: seq<ZoneFile>)
    requires files != []
    ensures SignedKeys(files) ==
              (if Signed(files[0]) then {ZoneKey(files[0].path)} else {}) + SignedKeys(files[1..])
  {
    var tail := files[1..];
    forall k | k in SignedKeys(files)
      ensures k in (if Signed(files[0]) then {ZoneKey(files[0].path)} else {}) + SignedKeys(tail)
    {
      var i :| 0 <= i < |files| && Signed(files[i]) && ZoneKey(files[i].path) == k;
      if i > 0 {
        assert Signed(tail[i - 1]) && ZoneKey(tail[i - 1].path) == k;
      }
    }
    forall k | k in SignedKeys(tail)
      ensures k in SignedKeys(files)
    {
      var i :| 0 <= i < |tail| && Signed(tail[i]) && ZoneKey(tail[i].path) == k;
      assert Signed(files[i + 1]) && ZoneKey(files[i + 1].path) == k;
    }
  }

  /** On success, the keys are the starting ones plus those of the signed files,
      and a key no signed file writes keeps its starting value. */
  lemma {:induction false} CollectKeys(m: map<string, string>, files: seq<ZoneFile>)
    requires Collect(m, files).Success?
    ensures Collect(m, files).value.Keys == m.Keys + SignedKeys(files)
    ensures forall k :: k in m && k !in SignedKeys(files) ==> Collect(m, files).value[k] == m[k]
    decreases |files|
  {
    if files != [] {
      SignedKeysCons(files);
      CollectKeys(Assign(m, files[0]), files[1..]);
    }
  }

  /** On success, a signed file that is the last to write its key leaves its value
      under that key. */
  lemma {:induction false} CollectValues(m: map<string, string>, files: seq<ZoneFile>, i: nat)
    requires !HasBrokenFile(files)
    requires i < |files| && Signed(files[i]) && LastWriter(files, i)
    ensures Collect(m, files).Success?
    ensures ZoneKey(files[i].path) in Collect(m, files).value
    ensures Collect(m, files).value[ZoneKey(files[i].path)] == ZoneValue(files[i])
    decreases |files|
  {
    var tail := files[1..];
    assert !Breaks(files[0]);
    var m' := Assign(m, files[0]);
    assert !HasBrokenFile(tail) by {
      forall j | 0 <= j < |tail|
        ensures !Breaks(tail[j])
      {
        assert tail[j] == files[j + 1];
      }
    }
    CollectFails(m', tail);
    if i == 0 {
      CollectKeys(m', tail);
      assert ZoneKey(files[0].path) !in SignedKeys(tail);
    } else {
      assert tail[i - 1] == files[i];
      assert LastWriter(tail, i - 1) by {
        forall j | i - 1 < j < |tail| && Signed(tail[j])
          ensures ZoneKey(tail[j].path) != ZoneKey(tail[i - 1].path)
        {
          assert tail[j] == files[j + 1];
        }
      }
      CollectValues(m', tail, i - 1);
    }
  }

  /** The map the build writes out, before serialisation. */
  function BuildZoneMap(dirname: string, files: seq<ZoneFile>): Result<map<string, string>, ZoneError> {
    Collect(map[VersionKey := VersionLabel(dirname)], files)
  }

  /** The listing the recursive glob yields: every path lies under the zoneinfo
      root and no path appears twice. */
  ghost predicate UnderRoot(files: seq<ZoneFile>) {
    && (forall i :: 0 <= i < |files| ==> ZoneRoot <= files[i].path)
    && (forall i, j :: 0 <= i < j < |files| ==> files[i].path != files[j].path)
  }

  /** No file's key collides with the reserved version key. */
  ghost predicate NoVersionKeyFile(files: seq<ZoneFile>) {
    forall i :: 0 <= i < |files| ==> ZoneKey(files[i].path) != VersionKey
  }

  /** Under the root, distinct files have distinct keys. */
  lemma UnderRootKeysDistinct(files: seq<ZoneFile>, i: nat, j: nat)
    requires UnderRoot(files) && i < |files| && j < |files| && i != j
    ensures ZoneKey(files[i].path) != ZoneKey(files[j].path)
  {
    var p, q := files[i].path, files[j].path;
    assert p == ZoneRoot + p[KeyOffset..];
    assert q == ZoneRoot + q[KeyOffset..];
    ZoneKeysDistinct(p[KeyOffset..], q[KeyOffset..]);
  }

  /** The built map, when no file breaks the build: `_tzdb` holds the version label; the
      other keys are exactly those of the signed files, each holding its file's
      stripped last line; a file without the signature has no entry. */
  lemma {:induction false} ZoneMapContents(dirname: string, files: seq<ZoneFile>)
    requires !HasBrokenFile(files) && UnderRoot(files) && NoVersionKeyFile(files)
    ensures BuildZoneMap(dirname, files).Success?
    ensures BuildZoneMap(dirname, files).value.Keys == {VersionKey} + SignedKeys(files)
    ensures BuildZoneMap(dirname, files).value[VersionKey] == VersionLabel(dirname)
    ensures forall i :: 0 <= i < |files| ==>
              (ZoneKey(files[i].path) in BuildZoneMap(dirname, files).value <==> Signed(files[i]))
    ensures forall i :: 0 <= i < |files| && Signed(files[i]) ==>
              BuildZoneMap(dirname, files).value[ZoneKey(files[i].path)] == ZoneValue(files[i])
  {
    var m0 := map[VersionKey := VersionLabel(dirname)];
    CollectFails(m0, files);
    CollectKeys(m0, files);
    var r := BuildZoneMap(dirname, files).value;
    forall i | 0 <= i < |files|
      ensures ZoneKey(files[i].path) in r <==> Signed(files[i])
    {
      if ZoneKey(files[i].path) in r && !Signed(files[i]) {
        var j :| 0 <= j < |files| && Signed(files[j]) && ZoneKey(files[j].path) == ZoneKey(files[i].path);
        UnderRootKeysDistinct(files, i, j);
      }
    }
    forall i | 0 <= i < |files| && Signed(files[i])
      ensures r[ZoneKey(files[i].path)] == ZoneValue(files[i])
    {
      forall j | i < j < |files| && Signed(files[j])
        ensures ZoneKey(files[j].path) != ZoneKey(files[i].path)
      {
        UnderRootKeysDistinct(files, i, j);
      }
      CollectValues(m0, files, i);
    }
  }

  // ---------------------------------------------------------------------------
  // The rewrite loop and the written document

  /** `for name, zone in tzdata.items(): tzdata[name] = zone`: every key is
      assigned the value it already holds, so the map comes out unchanged. */
  method RewriteEntries(m: map<string, string>) returns (r: map<string, string>)
    ensures r == m
  {
    r := m;
    var pending := m.Keys;
    while pending != {}
      invariant pending <= m.Keys
      invariant r == m
      decreases pending
    {
      var name :| name in pending;
      var zone := r[name];
      r := r[name := zone];
      pending := pending - {name};
    }
  }

  /** The whole build after the download: the map, the rewrite loop, and the
      entries in the order `json.dump(..., sort_keys=True)` writes them. It fails
      exactly when some file breaks the build, which stops the script before it
      writes anything. */
  method Snapshot(dirname: string, files: seq<ZoneFile>) returns (r: Result<seq<(string, string)>, ZoneError>)
    ensures r.Failure? <==> HasBrokenFile(files)
    ensures r.Failure? ==> BuildZoneMap(dirname, files) == Failure(r.error)
    ensures r.Success? ==> BuildZoneMap(dirname, files).Success?
    ensures r.Success? ==> forall i :: 0 <= i < |r.value| ==>
              r.value[i].0 in BuildZoneMap(dirname, files).value &&
              r.value[i].1 == BuildZoneMap(dirname, files).value[r.value[i].0]
    ensures r.Success? ==> forall k :: k in BuildZoneMap(dirname, files).value ==>
              exists i :: 0 <= i < |r.value| && r.value[i].0 == k
    ensures r.Success? ==> forall i, j :: 0 <= i < j < |r.value| ==> KeyOrder.Less(r.value[i].0, r.value[j].0)
  {
    CollectFails(map[VersionKey := VersionLabel(dirname)], files);
    var built := BuildZoneMap(dirname, files);
    if built.Failure? {
      return Failure(built.error);
    }
    var tzdata := RewriteEntries(built.value);
    var keys := KeyOrder.SortKeys(tzdata.Keys);
    var doc := seq(|keys|, i requires 0 <= i < |keys| => (keys[i], tzdata[keys[i]]));
    forall k | k in tzdata
      ensures exists i :: 0 <= i < |doc| && doc[i].0 == k
    {
      var i :| 0 <= i < |keys| && keys[i] == k;
      assert doc[i].0 == k;
    }
    return Success(doc);
  }
}
