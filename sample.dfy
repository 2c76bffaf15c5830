/** The scenario of test_package_statistics.py: the sample Contents index of
    `MOCK_FILE`, the result `get_statistics` must give for it with the default count,
    the same result on a second call, and the repository normalisation of `test_init`. */
module Sample {
  import opened Wrappers
  import opened Bytes
  import opened Leaderboard
  import opened ContentParser

  /** Printable ASCII other than space: no such character is whitespace, a newline or a space. */
  predicate Printable(s: string) {
    forall i | 0 <= i < |s| :: '!' <= s[i] <= '~'
  }

  /** A package token of the second column: printable and without a comma. */
  predicate Token(s: string) {
    Printable(s) && forall i | 0 <= i < |s| :: s[i] != ','
  }

  lemma TokenConcat(a: string, b: string)
    requires Token(a) && Token(b)
    ensures Token(a + b)
  {
  }

  /** The bytes of an ASCII string. */
  function Encode(s: string): (b: seq<byte>)
    requires Printable(s)
    ensures |b| == |s|
    ensures forall i | 0 <= i < |s| :: b[i] as int == s[i] as int
  {
    seq(|s|, i requires 0 <= i < |s| => s[i] as int as byte)
  }

  lemma EncodeInjective(a: string, b: string)
    requires Printable(a) && Printable(b) && a != b
    ensures Encode(a) != Encode(b)
  {
    if |a| == |b| {
      var i :| 0 <= i < |a| && a[i] != b[i];
      assert Encode(a)[i] != Encode(b)[i];
    }
  }

  function Spaces(n: nat): (s: seq<byte>)
    ensures |s| == n && forall k | 0 <= k < n :: s[k] == SPACE
  {
    seq(n, _ => SPACE)
  }

  function EncodeAll(tokens: seq<string>): (parts: seq<seq<byte>>)
    requires forall i | 0 <= i < |tokens| :: Token(tokens[i])
    ensures |parts| == |tokens|
    ensures forall i | 0 <= i < |tokens| :: Token(tokens[i]) && parts[i] == Encode(tokens[i])
  {
    if tokens == [] then [] else assert Token(tokens[0]); [Encode(tokens[0])] + EncodeAll(tokens[1..])
  }

  /** The second column: the package tokens joined by commas. */
  function Packages(tokens: seq<string>): seq<byte>
    requires |tokens| >= 1 && forall i | 0 <= i < |tokens| :: Token(tokens[i])
  {
    Join(EncodeAll(tokens), COMMA)
  }

  /** A data row of `MOCK_FILE`: the path, padded with spaces to column 56, then the packages. */
  function Row(path: string, tokens: seq<string>): seq<byte>
    requires Printable(path) && |path| < 56
    requires |tokens| >= 1 && forall i | 0 <= i < |tokens| :: Token(tokens[i])
  {
    Encode(path) + Spaces(56 - |path|) + Packages(tokens)
  }

  /** The header row of `MOCK_FILE`. */
  function HeaderRow(): seq<byte> {
    Spaces(1) + Encode("FILE") + Spaces(52) + Encode("LOCATION")
  }

  lemma PackagesFacts(tokens: seq<string>)
    requires |tokens| >= 1 && forall i | 0 <= i < |tokens| :: Token(tokens[i])
    ensures SPACE !in Packages(tokens) && NEWLINE !in Packages(tokens)
    ensures |Split(Packages(tokens), COMMA)| == |tokens|
  {
    var parts := EncodeAll(tokens);
    forall i | 0 <= i < |parts| ensures COMMA !in parts[i] && SPACE !in parts[i] && NEWLINE !in parts[i] {
      forall k | 0 <= k < |parts[i]| ensures parts[i][k] != COMMA && parts[i][k] != SPACE && parts[i][k] != NEWLINE {
        assert parts[i][k] as int == tokens[i][k] as int;
      }
    }
    JoinFree(parts, COMMA, SPACE);
    JoinFree(parts, COMMA, NEWLINE);
    SplitJoin(parts, COMMA);
  }

  /** A row parses to its path and the number of its package tokens. */
  lemma ParseRow(path: string, tokens: seq<string>)
    requires Printable(path) && 0 < |path| < 56
    requires |tokens| >= 1 && forall i | 0 <= i < |tokens| :: Token(tokens[i])
    ensures ParseLine(Row(path, tokens)) == Some((Encode(path), |tokens|))
    ensures NEWLINE !in Row(path, tokens)
  {
    var name, pad, files := Encode(path), Spaces(56 - |path|), Packages(tokens);
    PackagesFacts(tokens);
    var line := Row(path, tokens);
    assert line == (name + pad[..|pad| - 1]) + [SPACE] + files;
    RSplitOnceUnique(line, SPACE, name + pad[..|pad| - 1], files);
    assert name[0] as int == path[0] as int && name[|name| - 1] as int == path[|path| - 1] as int;
    StripPadded(name, pad[..|pad| - 1]);
    forall k | 0 <= k < |line| ensures line[k] != NEWLINE {
      if k < |name| {
        assert line[k] as int == path[k] as int;
      } else if k >= |name| + |pad| {
        assert line[k] == files[k - |name| - |pad|];
      }
    }
  }
  // ---------------------------------------------------------------------------
  // The run over the parsed rows

  /** The counts of the 18 data rows of `MOCK_FILE`, in order. */
  const MockCounts: seq<nat> := [1, 2, 2, 2, 5, 8, 1, 1, 1, 1, 1, 1, 1, 1, 1, 1, 1, 23]

  /** One step of `_sort`'s insertion: `x` is placed after the larger counts of the
      sorted rest and before the others. */
  lemma SortStep(x: Entry, t: Frontier, a: Frontier, b: Frontier)
    requires Sort(t) == a + b && forall e | e in a :: e.files > x.files
    requires b == [] || b[0].files <= x.files
    ensures Sort([x] + t) == a + ([x] + b)
  {
    SortCons(x, t);
    InsertPast(x, a, b);
  }

  // `_sort` of the first ten rows, one insertion per lemma, from the sixth row back
  // to the first; `t` stands for the sorted tail of rows seven to ten, of count 1.

  lemma SortFromFive(e5: Entry, t: Frontier)
    requires e5.files == 8 && t != [] && SortedDesc(t) && t[0].files == 1
    ensures Sort([e5] + t) == [e5] + t
  {
    SortSorted(t);
    SortStep(e5, t, [], t);
  }

  lemma SortFromFour(e4: Entry, e5: Entry, t: Frontier)
    requires e4.files == 5 && e5.files == 8 && t != [] && SortedDesc(t) && t[0].files == 1
    ensures Sort([e4] + ([e5] + t)) == [e5, e4] + t
  {
    assert [e5] + ([e4] + t) == [e5, e4] + t;
    SortFromFive(e5, t);
    SortStep(e4, [e5] + t, [e5], t);
  }

  lemma SortFromThree(e3: Entry, e4: Entry, e5: Entry, t: Frontier)
    requires e3.files == 2 && e4.files == 5 && e5.files == 8
    requires t != [] && SortedDesc(t) && t[0].files == 1
    ensures Sort([e3] + ([e4] + ([e5] + t))) == [e5, e4] + ([e3] + t)
  {
    SortFromFour(e4, e5, t);
    SortStep(e3, [e4] + ([e5] + t), [e5, e4], t);
  }

  lemma SortFromTwo(e2: Entry, e3: Entry, e4: Entry, e5: Entry, t: Frontier)
    requires e2.files == 2 && e3.files == 2 && e4.files == 5 && e5.files == 8
    requires t != [] && SortedDesc(t) && t[0].files == 1
    ensures Sort([e2] + ([e3] + ([e4] + ([e5] + t)))) == [e5, e4] + ([e2, e3] + t)
  {
    assert [e2] + ([e3] + t) == [e2, e3] + t;
    SortFromThree(e3, e4, e5, t);
    SortStep(e2, [e3] + ([e4] + ([e5] + t)), [e5, e4], [e3] + t);
  }

  lemma SortFromOne(e1: Entry, e2: Entry, e3: Entry, e4: Entry, e5: Entry, t: Frontier)
    requires e1.files == 2 && e2.files == 2 && e3.files == 2 && e4.files == 5 && e5.files == 8
    requires t != [] && SortedDesc(t) && t[0].files == 1
    ensures Sort([e1] + ([e2] + ([e3] + ([e4] + ([e5] + t))))) == [e5, e4, e1, e2, e3] + t
  {
    assert [e5, e4] + ([e1] + ([e2, e3] + t)) == [e5, e4, e1, e2, e3] + t;
    SortFromTwo(e2, e3, e4, e5, t);
    SortStep(e1, [e2] + ([e3] + ([e4] + ([e5] + t))), [e5, e4], [e2, e3] + t);
  }

  lemma SortFromZero(e0: Entry, e1: Entry, e2: Entry, e3: Entry, e4: Entry, e5: Entry,
                     t: Frontier)
    requires e0.files == 1 && e1.files == 2 && e2.files == 2 && e3.files == 2
    requires e4.files == 5 && e5.files == 8 && t != [] && SortedDesc(t) && t[0].files == 1
    ensures Sort([e0] + ([e1] + ([e2] + ([e3] + ([e4] + ([e5] + t))))))
      == [e5, e4, e1, e2, e3] + ([e0] + t)
  {
    SortFromOne(e1, e2, e3, e4, e5, t);
    SortStep(e0, [e1] + ([e2] + ([e3] + ([e4] + ([e5] + t)))), [e5, e4, e1, e2, e3], t);
  }

  /** `_sort` of the first ten entries: the stable order by count, largest first. */
  lemma SortFirstTen(e: Frontier)
    requires |e| == 10 && e[0].files == 1 && e[1].files == 2 && e[2].files == 2
    requires e[3].files == 2 && e[4].files == 5 && e[5].files == 8
    requires forall j | 6 <= j < 10 :: e[j].files == 1
    ensures Sort(e) == [e[5], e[4], e[1], e[2], e[3], e[0], e[6], e[7], e[8], e[9]]
  {
    var t := e[6..];
    TenPieces(e);
    assert t[0].files == 1;
    assert SortedDesc(t);
    SortFromZero(e[0], e[1], e[2], e[3], e[4], e[5], t);
  }

  /** Ten items as the nested sequence the insertions above work on, and the sorted
      order rebuilt from its pieces. */
  lemma TenPieces(e: Frontier)
    requires |e| == 10
    ensures e == [e[0]] + ([e[1]] + ([e[2]] + ([e[3]] + ([e[4]] + ([e[5]] + e[6..])))))
    ensures [e[5], e[4], e[1], e[2], e[3]] + ([e[0]] + e[6..])
      == [e[5], e[4], e[1], e[2], e[3], e[0], e[6], e[7], e[8], e[9]]
  {
    assert e[5..] == [e[5]] + e[6..];
    assert e[4..] == [e[4]] + e[5..];
    assert e[3..] == [e[3]] + e[4..];
    assert e[2..] == [e[2]] + e[3..];
    assert e[1..] == [e[1]] + e[2..];
    assert e == [e[0]] + e[1..];
    assert e[6..] == [e[6], e[7], e[8], e[9]];
  }

  /** What the loop sees in the lines of `MOCK_FILE`: 18 rows that parse to the items
      `es`, with the counts above and distinct keys among the first ten and the last,
      then an empty line. */
  ghost predicate MockShape(ps: seq<Parsed>, es: Frontier) {
    && |ps| == 19 && |es| == 18
    && (forall j | 0 <= j < 18 :: ps[j] == Some((es[j].name, es[j].files)))
    && (forall j | 0 <= j < 18 :: es[j].files == MockCounts[j])
    && ps[18].None?
    && DistinctNames(es[..10])
    && forall j | 0 <= j < 10 :: es[j].name != es[17].name
  }

  /** The frontier after the first ten rows fill it and the eleventh sorts it. */
  function MockSorted(es: Frontier): Frontier
    requires |es| >= 10
  {
    [es[5], es[4], es[1], es[2], es[3], es[0], es[6], es[7], es[8], es[9]]
  }

  lemma SortMockFirstTen(es: Frontier)
    requires |es| >= 10 && forall j | 0 <= j < 10 :: es[j].files == MockCounts[j]
    ensures Sort(es[..10]) == MockSorted(es)
  {
    SortFirstTen(es[..10]);
  }

  lemma FillMock(ps: seq<Parsed>, es: Frontier)
    requires MockShape(ps, es)
    ensures Run(ps[..10], 10) == Success(es[..10])
  {
    var f := es[..10];
    assert forall j | 0 <= j < |f| :: ps[j] == Some((f[j].name, f[j].files));
    FillPhase(ps, f, 10, 10);
    assert f[..10] == f;
  }

  lemma EleventhRow(ps: seq<Parsed>, es: Frontier)
    requires MockShape(ps, es)
    ensures ps[10].Some? && ps[10].value.1 <= MockSorted(es)[9].files
  {
  }

  lemma RunFirstEleven(ps: seq<Parsed>, es: Frontier)
    requires MockShape(ps, es)
    ensures Run(ps[..11], 10) == Success(MockSorted(es))
  {
    FillMock(ps, es);
    SortMockFirstTen(es);
    EleventhRow(ps, es);
    StallStep(es[..10], ps[10], 10);
    RunStep(ps, 11, 10, es[..10], MockSorted(es));
  }

  lemma RunFirstSeventeen(ps: seq<Parsed>, es: Frontier)
    requires MockShape(ps, es)
    ensures Run(ps[..17], 10) == Success(MockSorted(es))
  {
    RunFirstEleven(ps, es);
    MockSortedShape(es);
    StallRows(ps, es);
    StallPhase(ps, MockSorted(es), 11, 17, 10);
  }

  lemma MockSortedShape(es: Frontier)
    requires |es| == 18 && forall j | 0 <= j < 18 :: es[j].files == MockCounts[j]
    ensures SortedDesc(MockSorted(es)) && MockSorted(es)[9].files == 1
  {
  }

  /** Rows 12 to 17 each name one package. */
  lemma StallRows(ps: seq<Parsed>, es: Frontier)
    requires MockShape(ps, es)
    ensures forall j | 11 <= j < 17 :: ps[j].Some? && ps[j].value.1 <= 1
  {
  }
  /** The eighteenth row beats the smallest count and its key is new: the last item is
      popped and the row's item appended. */
  lemma AdmitLast(ps: seq<Parsed>, es: Frontier)
    requires MockShape(ps, es)
    ensures Step(MockSorted(es), ps[17], 10) == Success(PopLast(MockSorted(es)) + [es[17]])
  {
    MockSortedShape(es);
    LastNameIsNew(es);
    AdmitNew(MockSorted(es), ps[17], 10, es[17]);
  }

  /** A row that beats the smallest count of a full sorted frontier, with a new key. */
  lemma AdmitNew(s: Frontier, p: Parsed, count: int, e: Entry)
    requires |s| == count >= 1 && SortedDesc(s) && p == Some((e.name, e.files))
    requires s[count - 1].files < e.files && e.name !in Names(PopLast(s))
    ensures Step(s, p, count) == Success(PopLast(s) + [e])
  {
    SortSorted(s);
    StepFull(s, count, e.name, e.files);
  }

  lemma LastNameIsNew(es: Frontier)
    requires |es| == 18 && forall j | 0 <= j < 10 :: es[j].name != es[17].name
    ensures es[17].name !in Names(PopLast(MockSorted(es)))
  {
    var p := PopLast(MockSorted(es));
    forall i | 0 <= i < |p| ensures p[i].name != es[17].name {
      assert p[i] in es[..10];
    }
  }

  /** The frontier when the loop ends, after the admitted row and the final empty line. */
  lemma RunMock(ps: seq<Parsed>, es: Frontier)
    requires MockShape(ps, es)
    ensures Run(ps, 10) == Success(PopLast(MockSorted(es)) + [es[17]])
  {
    var g := PopLast(MockSorted(es)) + [es[17]];
    RunFirstSeventeen(ps, es);
    AdmitLast(ps, es);
    RunStep(ps, 18, 10, MockSorted(es), g);
    RunStep(ps, 19, 10, g, g);
    TakeAll(ps);
  }

  /** The final `_sort` brings the admitted row to the front. */
  lemma SortMock(es: Frontier)
    requires |es| == 18 && forall j | 0 <= j < 18 :: es[j].files == MockCounts[j]
    ensures Sort(PopLast(MockSorted(es)) + [es[17]]) == [es[17]] + PopLast(MockSorted(es))
  {
    MockSortedShape(es);
    var p := PopLast(MockSorted(es));
    assert SortedDesc(p);
    SortAppendLargest(p, es[17]);
  }

  lemma TakeAll<T>(s: seq<T>)
    ensures s[..|s|] == s
  {
  }
  // ---------------------------------------------------------------------------
  // The bytes of MOCK_FILE

  /** The first column of the 18 data rows of `MOCK_FILE`. */
  const MockPaths: seq<string> := [
    "bin/bsd-csh", "bin/busybox", "bin/live-boot", "bin/live-config", "bin/setupcon",
    "bin/sh", "bin/signify-openbsd", "bin/sleep", "bin/ss", "bin/stty", "bin/su",
    "bin/sync", "bin/systemctl", "bin/systemd", "bin/systemd-ask-password",
    "bin/systemd-escape", "bin/systemd-hwdb", "bin/loginctl"]

  /** The comma-separated package tokens of the second column of each data row. */
  const MockPackages: seq<seq<string>> := [
    ["shells/csh"],
    ["utils/busybox", "shells/busybox-static"],
    ["misc/live-boot", "admin/open-infrastructure-" + "system-boot"],
    ["misc/live-config", "admin/open-infrastructure-" + "system-confiiiiiiag"],
    ["utils/console-setup", "utils/console-setup-mini", "three", "four", "five"],
    ["shells/dash", "more", "more", "more", "more", "more", "more", "more"],
    ["utils/signify-openbsd"],
    ["utils/coreutils"],
    ["net/iproute2"],
    ["utils/coreutils"],
    ["utils/util-linux"],
    ["utils/coreutils"],
    ["admin/systemd"],
    ["admin/systemd"],
    ["admin/systemd"],
    ["admin/systemd"],
    ["admin/udev"],
    ["admin/elogind", "admin/systemd", "q", "w", "e", "r", "t", "w", "e", "r", "w", "e",
     "w", "e", "w", "ew", "w", "s", "w", "ew", "w", "s", "we"]]

  /** A data row is well formed: a printable path shorter than the padding, and at least
      one token. */
  predicate ValidRow(path: string, tokens: seq<string>) {
    && Printable(path) && 0 < |path| < 56
    && |tokens| >= 1 && forall i | 0 <= i < |tokens| :: Token(tokens[i])
  }

  /** Each data row is well formed, and its number of tokens is its count above. */
  lemma MockRowValid(j: nat)
    requires j < 18
    ensures ValidRow(MockPaths[j], MockPackages[j]) && |MockPackages[j]| == MockCounts[j]
  {
    PathsRowsOneToFive();
    PathsRowsSixToNine();
    PathsRowsTenToEighteen();
    TokensRowsOneTwo();
    TokensRowsThreeFour();
    TokensRowsThreeFourLong();
    TokensRowFive();
    TokensRowsSixSeven();
    TokensRowsEightToTwelve();
    TokensRowsThirteenToEighteen();
  }

  // The paths and tokens of the data rows, a few literals per lemma, by row.

  lemma PathsRowsOneToFive()
    ensures Printable("bin/bsd-csh") && Printable("bin/busybox") && Printable("bin/live-boot")
    ensures Printable("bin/live-config") && Printable("bin/setupcon")
  {
  }

  lemma PathsRowsSixToNine()
    ensures Printable("bin/sh") && Printable("bin/signify-openbsd") && Printable("bin/sleep")
    ensures Printable("bin/ss")
  {
  }

  lemma PathsRowsTenToEighteen()
    ensures Printable("bin/stty") && Printable("bin/su") && Printable("bin/sync")
    ensures Printable("bin/systemctl") && Printable("bin/systemd")
    ensures Printable("bin/systemd-ask-password") && Printable("bin/systemd-escape")
    ensures Printable("bin/systemd-hwdb") && Printable("bin/loginctl")
  {
  }

  lemma TokensRowsOneTwo()
    ensures Token("shells/csh") && Token("utils/busybox") && Token("shells/busybox-static")
  {
  }

  lemma TokensRowsThreeFour()
    ensures Token("misc/live-boot") && Token("misc/live-config")
  {
  }

  lemma TokensRowsThreeFourLong()
    ensures Token("admin/open-infrastructure-" + "system-boot")
    ensures Token("admin/open-infrastructure-" + "system-confiiiiiiag")
  {
    assert Token("admin/open-infrastructure-") && Token("system-boot") && Token("system-confiiiiiiag");
    TokenConcat("admin/open-infrastructure-", "system-boot");
    TokenConcat("admin/open-infrastructure-", "system-confiiiiiiag");
  }

  lemma TokensRowFive()
    ensures Token("utils/console-setup") && Token("utils/console-setup-mini")
    ensures Token("three") && Token("four") && Token("five")
  {
  }

  lemma TokensRowsSixSeven()
    ensures Token("shells/dash") && Token("more") && Token("utils/signify-openbsd")
  {
  }

  lemma TokensRowsEightToTwelve()
    ensures Token("utils/coreutils") && Token("net/iproute2") && Token("utils/util-linux")
  {
  }

  lemma TokensRowsThirteenToEighteen()
    ensures Token("admin/systemd") && Token("admin/udev") && Token("admin/elogind")
    ensures Token("q") && Token("w") && Token("e") && Token("r") && Token("t")
    ensures Token("ew") && Token("s") && Token("we")
  {
  }

  /** Data row `j` of `MOCK_FILE`. */
  function MockRow(j: nat): seq<byte>
    requires j < 18
  {
    MockRowValid(j);
    Row(MockPaths[j], MockPackages[j])
  }

  /** The item data row `j` is parsed to. */
  function MockEntry(j: nat): Entry
    requires j < 18
  {
    MockRowValid(j);
    Entry(Encode(MockPaths[j]), MockCounts[j])
  }

  /** The data rows of `MOCK_FILE`. */
  function MockRows(): seq<seq<byte>> {
    seq(18, j requires 0 <= j < 18 => MockRow(j))
  }

  /** The items the data rows are parsed to, in order. */
  function MockEntries(): Frontier {
    seq(18, j requires 0 <= j < 18 => MockEntry(j))
  }

  /** `MOCK_FILE`: the header row and the data rows, each ended by a newline. */
  function MockFile(): seq<byte> {
    Join([HeaderRow()] + MockRows() + [[]], NEWLINE)
  }

  /** What `get_statistics` must return for `MOCK_FILE` with the default count. */
  function MockExpected(): Frontier {
    PathsRowsOneToFive();
    PathsRowsSixToNine();
    PathsRowsTenToEighteen();
    [ Entry(Encode("bin/loginctl"), 23), Entry(Encode("bin/sh"), 8),
      Entry(Encode("bin/setupcon"), 5), Entry(Encode("bin/busybox"), 2),
      Entry(Encode("bin/live-boot"), 2), Entry(Encode("bin/live-config"), 2),
      Entry(Encode("bin/bsd-csh"), 1), Entry(Encode("bin/signify-openbsd"), 1),
      Entry(Encode("bin/sleep"), 1), Entry(Encode("bin/ss"), 1) ]
  }

  lemma MockRowFacts(j: nat)
    requires j < 18
    ensures ParseLine(MockRow(j)) == Some((MockEntry(j).name, MockEntry(j).files))
    ensures NEWLINE !in MockRow(j)
  {
    MockRowValid(j);
    ParseRow(MockPaths[j], MockPackages[j]);
  }

  /** The header row names both columns and has no newline. */
  lemma HeaderFacts()
    ensures NEWLINE !in HeaderRow() && IsHeader(HeaderRow())
  {
    var h := HeaderRow();
    assert h[1..5] == FILE_HEADER;
    assert OccursAt(h, FILE_HEADER, 1);
    forall k | 0 <= k < |h| ensures h[k] != NEWLINE {
      if 1 <= k < 5 {
        assert h[k] == Encode("FILE")[k - 1];
      } else if k >= 57 {
        assert h[k] == Encode("LOCATION")[k - 57];
      }
    }
  }

  /** The loop of `get_statistics` visits the data rows, then the empty line after the
      last newline: the header row is dropped. */
  lemma MockLines()
    ensures Lines(MockFile()) == Success(MockRows() + [[]])
  {
    HeaderFacts();
    MockRowsFree();
    var rest := MockRows() + [[]];
    forall i | 0 <= i < |rest| ensures NEWLINE !in rest[i] {
      if i < 18 {
        assert rest[i] == MockRows()[i];
      }
    }
    assert [HeaderRow()] + MockRows() + [[]] == [HeaderRow()] + rest;
    LinesOfIndex(HeaderRow(), rest);
  }

  lemma MockRowsFree()
    ensures forall j | 0 <= j < |MockRows()| :: NEWLINE !in MockRows()[j]
  {
    forall j | 0 <= j < |MockRows()| ensures NEWLINE !in MockRows()[j] {
      MockRowFacts(j);
    }
  }

  /** The first ten data rows have distinct paths, none equal to the last row's path. */
  lemma MockPathsDistinct()
    ensures forall i, j | 0 <= i < j < 10 :: MockPaths[i] != MockPaths[j]
    ensures forall j | 0 <= j < 10 :: MockPaths[j] != MockPaths[17]
  {
  }

  /** The parsed lines of `MOCK_FILE` have the shape the scenario lemmas expect. */
  lemma MockParsed()
    ensures MockShape(ParseAll(MockRows() + [[]]), MockEntries())
  {
    MockParsedRows();
    MockNamesDistinct();
  }

  lemma MockParsedRows()
    ensures var ps, es := ParseAll(MockRows() + [[]]), MockEntries();
      && |ps| == 19 && |es| == 18
      && (forall j | 0 <= j < 18 :: ps[j] == Some((es[j].name, es[j].files)))
      && (forall j | 0 <= j < 18 :: es[j].files == MockCounts[j])
      && ps[18].None?
  {
    var lines := MockRows() + [[]];
    var ps := ParseAll(lines);
    var es := MockEntries();
    forall j | 0 <= j < 18 ensures ps[j] == Some((es[j].name, es[j].files)) {
      MockRowFacts(j);
      assert lines[j] == MockRow(j);
    }
    assert lines[18] == [];
  }

  lemma MockNamesDistinct()
    ensures var es := MockEntries();
      && DistinctNames(es[..10])
      && forall j | 0 <= j < 10 :: es[j].name != es[17].name
  {
    var es := MockEntries();
    MockPathsDistinct();
    forall i, j | 0 <= i < j < 18 && MockPaths[i] != MockPaths[j] ensures es[i].name != es[j].name {
      MockNameDistinct(i, j);
    }
    var f := es[..10];
    forall i, j | 0 <= i < j < 10 ensures f[i].name != f[j].name {
      assert f[i] == es[i] && f[j] == es[j];
    }
  }

  lemma MockNameDistinct(i: nat, j: nat)
    requires i < j < 18 && MockPaths[i] != MockPaths[j]
    ensures MockEntry(i).name != MockEntry(j).name
  {
    MockRowValid(i);
    MockRowValid(j);
    EncodeInjective(MockPaths[i], MockPaths[j]);
  }

  /** `get_statistics("amd64")` on `MOCK_FILE` returns the ten packages of the test, in
      the test's order. */
  lemma MockStatistics()
    ensures Statistics(MockFile(), DEFAULT_COUNT) == Success(MockExpected())
  {
    MockLines();
    MockParsed();
    var es := MockEntries();
    RunMock(ParseAll(MockRows() + [[]]), es);
    SortMock(es);
    MockResultIs();
  }

  lemma MockResultIs()
    ensures [MockEntries()[17]] + PopLast(MockSorted(MockEntries())) == MockExpected()
  {
  }

  /** `test_statistics` calls `get_statistics("amd64")` twice on one parser and checks
      the second result: nothing carries over from the first call. */
  method StatisticsTwice() returns (first: Result<Frontier, Error>, second: Result<Frontier, Error>)
    ensures first == Success(MockExpected()) && second == first
  {
    first := GetStatistics(MockFile(), DEFAULT_COUNT);
    second := GetStatistics(MockFile(), DEFAULT_COUNT);
    MockStatistics();
  }

  /** `test_init`: the trailing slash of the repository is removed. */
  lemma TrailingSlashRemoved()
    ensures NormalizeRepository("https://foo.bar/") == Success("https://foo.bar")
  {
    assert "https://foo.bar/" == "https://foo.bar" + "/";
  }
}
