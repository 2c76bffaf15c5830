/** `ContentParser` of package_statistics.py: the repository normalisation of its
    constructor, the index URL, and the in-memory pass of `get_statistics` that parses
    the decompressed Contents index and keeps a bounded top-`count` frontier.

    `GetStatistics` is the loop of `get_statistics`; `Statistics` is the same pass as
    a function (a fold of `Step` over the lines), against which the method is proved and
    about which the properties of the result are proved. */
module ContentParser {
  import opened Wrappers
  import opened Bytes
  import opened Leaderboard

  /** The exceptions the modelled code raises itself. */
  datatype Error =
    | EmptyRepository     // `repository[-1]` on an empty string: IndexError
    | MissingNewline      // `first_line, rest = contents.split(b"\n", 1)` with no newline: ValueError
    | EmptyFrontierIndex  // `list(values)[count - 1]` on an empty dict (count == 0): IndexError

  /** The default of `get_statistics`'s `count` parameter. */
  const DEFAULT_COUNT: int := 10

  // ---------------------------------------------------------------------------
  // ContentParser.__init__ and the URL of _get_contents

  /** The repository as `__init__` stores it: one trailing `/` removed if present. */
  function NormalizeRepository(repository: string): (r: Result<string, Error>)
    ensures r.Failure? <==> repository == []
    ensures r.Failure? ==> r.error == EmptyRepository
    ensures r.Success? ==>
      repository == r.value + "/" || (r.value == repository && repository[|repository| - 1] != '/')
  {
    if repository == [] then Failure(EmptyRepository)
    else if repository[|repository| - 1] == '/' then Success(repository[..|repository| - 1])
    else Success(repository)
  }

  /** The location `_get_contents` fetches. */
  function ContentsUrl(repository: string, arch: string): string {
    repository + "/Contents-" + arch + ".gz"
  }

  /** The URL built from the stored repository is the repository as given, with a `/`
      added only when it does not already end in one, then `Contents-<arch>.gz`. */
  lemma UrlOfNormalized(repository: string, arch: string)
    requires repository != []
    ensures var base := (if repository[|repository| - 1] == '/' then repository else repository + "/");
      ContentsUrl(NormalizeRepository(repository).value, arch) == base + "Contents-" + arch + ".gz"
  {
    if repository[|repository| - 1] == '/' {
      assert repository == repository[..|repository| - 1] + "/";
    }
  }

  /** Distinct repositories give distinct URLs for one architecture, and distinct
      architectures give distinct URLs for one repository. */
  lemma ContentsUrlInjective(r1: string, r2: string, a1: string, a2: string)
    ensures ContentsUrl(r1, a1) == ContentsUrl(r2, a1) ==> r1 == r2
    ensures ContentsUrl(r1, a1) == ContentsUrl(r1, a2) ==> a1 == a2
  {
    var suffix := "/Contents-" + a1 + ".gz";
    if ContentsUrl(r1, a1) == ContentsUrl(r2, a1) {
      assert r1 + suffix == ContentsUrl(r1, a1) && r2 + suffix == ContentsUrl(r2, a1);
      assert r1 == (r1 + suffix)[..|r1|];
    }
    if ContentsUrl(r1, a1) == ContentsUrl(r1, a2) {
      var u1, u2 := ContentsUrl(r1, a1), ContentsUrl(r1, a2);
      var k := |r1| + |"/Contents-"|;
      assert u1 == (r1 + "/Contents-") + a1 + ".gz" && u2 == (r1 + "/Contents-") + a2 + ".gz";
      assert a1 == u1[k..|u1| - 3] && a2 == u2[k..|u2| - 3];
    }
  }

  // ---------------------------------------------------------------------------
  // Stage 1: header and lines

  /** `"FILE"` and `"LOCATION"` as bytes. */
  const FILE_HEADER: seq<byte> := [70, 73, 76, 69]
  const LOCATION_HEADER: seq<byte> := [76, 79, 67, 65, 84, 73, 79, 78]

  /** The first line is a header when it contains `FILE` or `LOCATION`. */
  predicate IsHeader(line: seq<byte>) {
    Contains(line, FILE_HEADER) || Contains(line, LOCATION_HEADER)
  }

  /** The lines the loop of `get_statistics` visits: the first line is split off and put
      back unless it is a header, then the rest is split on newlines. The source raises
      when there is no newline at all; otherwise the lines are those of the whole index,
      less the first exactly when the first is a header. */
  function Lines(contents: seq<byte>): (r: Result<seq<seq<byte>>, Error>)
    ensures r.Failure? <==> NEWLINE !in contents
    ensures r.Failure? ==> r.error == MissingNewline
    ensures r.Success? ==>
      var all := Split(contents, NEWLINE);
      r.value == if IsHeader(all[0]) then all[1..] else all
  {
    match SplitOnce(contents, NEWLINE)
    case None => Failure(MissingNewline)
    case Some((firstLine, rest)) =>
      SplitOnceSplit(contents, NEWLINE);
      Success(Split(if IsHeader(firstLine) then rest else firstLine + [NEWLINE] + rest, NEWLINE))
  }

  /** For an index built from a first line and further lines, none holding a newline,
      the loop visits the further lines, preceded by the first line unless it is a
      header; with no further line there is no newline and the source raises. */
  lemma LinesOfIndex(first: seq<byte>, rest: seq<seq<byte>>)
    requires NEWLINE !in first && forall i | 0 <= i < |rest| :: NEWLINE !in rest[i]
    ensures Lines(Join([first] + rest, NEWLINE)) ==
      if rest == [] then Failure(MissingNewline)
      else Success(if IsHeader(first) then rest else [first] + rest)
  {
    var parts := [first] + rest;
    var contents := Join(parts, NEWLINE);
    forall i | 0 <= i < |parts| ensures NEWLINE !in parts[i] {
      if i > 0 {
        assert parts[i] == rest[i - 1];
      }
    }
    SplitJoin(parts, NEWLINE);
    SplitCount(contents, NEWLINE);
    assert parts[1..] == rest;
  }

  /** One line of the index: `None` when it has no space (`rsplit` gives one piece and the
      unpacking fails, so the line is skipped); otherwise the stripped text before the last
      space and the number of comma-separated pieces after it, which is never zero. */
  function ParseLine(line: seq<byte>): (r: Option<(seq<byte>, nat)>)
    ensures r.None? <==> SPACE !in line
    ensures r.Some? ==> r.value.1 >= 1
  {
    match RSplitOnce(line, SPACE)
    case None => None
    case Some((name, associatedFiles)) => Some((Strip(name), |Split(associatedFiles, COMMA)|))
  }

  /** Where the last space of a line is, the key is the stripped text before it and the
      increment is one more than the number of commas after it. */
  lemma ParseLineAtLastSpace(line: seq<byte>, i: int)
    requires 0 <= i < |line| && line[i] == SPACE && SPACE !in line[i + 1..]
    ensures ParseLine(line) == Some((Strip(line[..i]), multiset(line[i + 1..])[COMMA] + 1))
  {
    assert line == line[..i] + [SPACE] + line[i + 1..];
    RSplitOnceUnique(line, SPACE, line[..i], line[i + 1..]);
    SplitCount(line[i + 1..], COMMA);
  }

  /** What one line amounts to in the loop: `None` when it is skipped, otherwise its key
      and increment. */
  type Parsed = Option<(seq<byte>, nat)>

  /** Every line parsed, in order. */
  function ParseAll(lines: seq<seq<byte>>): seq<Parsed> {
    seq(|lines|, j requires 0 <= j < |lines| => ParseLine(lines[j]))
  }

  // ---------------------------------------------------------------------------
  // Stage 2: the bounded frontier

  /** One iteration of the loop of `get_statistics`, on the parsed line `p`. */
  function Step(f: Frontier, p: Parsed, count: int): Result<Frontier, Error> {
    match p
    case None => Success(f)
    case Some((name, files)) =>
      if |f| == count then
        if count == 0 then Failure(EmptyFrontierIndex)
        else
          var sorted := Sort(f);
          if sorted[count - 1].files < files then Success(Update(PopLast(sorted), name, files))
          else Success(sorted)
      else Success(Update(f, name, files))
  }

  /** The frontier after the loop has visited the parsed lines `ps`, in order. */
  function Run(ps: seq<Parsed>, count: int): Result<Frontier, Error> {
    if ps == [] then Success([])
    else match Run(ps[..|ps| - 1], count)
      case Failure(e) => Failure(e)
      case Success(f) => Step(f, ps[|ps| - 1], count)
  }

  /** What `get_statistics` returns for the decompressed index `contents`. */
  function Statistics(contents: seq<byte>, count: int): Result<Frontier, Error> {
    match Lines(contents)
    case Failure(e) => Failure(e)
    case Success(lines) =>
      match Run(ParseAll(lines), count)
      case Failure(e) => Failure(e)
      case Success(f) => Success(Sort(f))
  }

  /** `ContentParser.get_statistics` on the already fetched and decompressed index. */
  method GetStatistics(contents: seq<byte>, count: int) returns (r: Result<Frontier, Error>)
    ensures r == Statistics(contents, count)
  {
    var split := SplitOnce(contents, NEWLINE);
    if split.None? {
      return Failure(MissingNewline);
    }
    var firstLine, rest := split.value.0, split.value.1;
    if !IsHeader(firstLine) {
      rest := firstLine + [NEWLINE] + rest;
    }
    var lines := Split(rest, NEWLINE);
    assert Lines(contents) == Success(lines);
    ghost var ps := ParseAll(lines);
    var topPackages: Frontier := [];
    var i := 0;
    assert ps[..0] == [];
    assert Run(ps[..0], count) == Success(topPackages);
    while i < |lines|
      invariant 0 <= i <= |lines|
      invariant Run(ps[..i], count) == Success(topPackages)
    {
      var parsed := ParseLine(lines[i]);
      assert ps[i] == parsed;
      ghost var before := topPackages;
      if parsed.Some? {
        var name, files := parsed.value.0, parsed.value.1;
        if |topPackages| == count {
          if count == 0 {
            RunSnoc(ps, i, count);
            RunFailurePersists(ps, i + 1, count);
            return Failure(EmptyFrontierIndex);
          }
          StepFull(topPackages, count, name, files);
          topPackages := Sort(topPackages);
          if topPackages[count - 1].files < files {
            topPackages := PopLast(topPackages);
            topPackages := Update(topPackages, name, files);
          }
        } else {
          topPackages := Update(topPackages, name, files);
        }
      }
      RunStep(ps, i + 1, count, before, topPackages);
      assert Run(ps[..i + 1], count) == Success(topPackages);
      i := i + 1;
    }
    assert ps[..|ps|] == ps;
    r := Success(Sort(topPackages));
  }

  /** An exception raised for a prefix of the lines ends the whole pass. */
  lemma {:induction false} RunFailurePersists(ps: seq<Parsed>, n: nat, count: int)
    requires n <= |ps| && Run(ps[..n], count).Failure?
    ensures Run(ps, count) == Run(ps[..n], count)
  {
    if n < |ps| {
      var p := ps[..|ps| - 1];
      assert p[..n] == ps[..n];
      RunFailurePersists(p, n, count);
    } else {
      assert ps[..n] == ps;
    }
  }

  // ---------------------------------------------------------------------------
  // Properties of the frontier and of the result

  /** What every frontier of the loop satisfies: dict keys are distinct, there are never
      more than `count` of them (when `count` is not negative) and every count is positive. */
  ghost predicate FrontierInv(f: Frontier, count: int) {
    && DistinctNames(f)
    && (count >= 0 ==> |f| <= count)
    && forall e | e in f :: e.files >= 1
  }

  /** Every parsed line has a positive increment, as `ParseLine` guarantees. */
  ghost predicate PositiveCounts(ps: seq<Parsed>) {
    forall j | 0 <= j < |ps| :: ps[j].Some? ==> ps[j].value.1 >= 1
  }

  /** Some parsed line is exactly this name and count. */
  ghost predicate ParsedFrom(ps: seq<Parsed>, e: Entry) {
    exists j | 0 <= j < |ps| :: ps[j] == Some((e.name, e.files))
  }

  /** The keys of all lines that parse. */
  ghost function SeenNames(ps: seq<Parsed>): set<seq<byte>> {
    set j | 0 <= j < |ps| && ps[j].Some? :: ps[j].value.0
  }

  lemma ParseAllPositive(lines: seq<seq<byte>>)
    ensures PositiveCounts(ParseAll(lines))
  {
    var ps := ParseAll(lines);
    forall j | 0 <= j < |ps| && ps[j].Some? ensures ps[j].value.1 >= 1 {
      assert ps[j] == ParseLine(lines[j]);
    }
  }

  lemma SortKeepsInv(f: Frontier, count: int)
    requires FrontierInv(f, count)
    ensures FrontierInv(Sort(f), count)
    ensures forall e | e in Sort(f) :: e in f
  {
    var s := Sort(f);
    SortNames(f);
    SortPermutes(f);
    forall e | e in s ensures e in f {
      assert e in multiset(s);
    }
  }

  /** The full-frontier branch of `Step` on a line that parses. */
  lemma StepFull(f: Frontier, count: int, name: seq<byte>, files: nat)
    requires |f| == count >= 1
    ensures var s := Sort(f);
      Step(f, Some((name, files)), count) ==
        if s[count - 1].files < files then Success(Update(PopLast(s), name, files)) else Success(s)
  {
  }

  lemma StepKeepsInv(f: Frontier, p: Parsed, count: int)
    requires FrontierInv(f, count) && Step(f, p, count).Success?
    requires p.Some? ==> p.value.1 >= 1
    ensures FrontierInv(Step(f, p, count).value, count)
  {
    if p.Some? {
      var (name, files) := p.value;
      if |f| == count {
        AdmitKeepsInv(f, count, name, files);
      } else {
        UpdateNames(f, name, files);
      }
    }
  }

  lemma AdmitKeepsInv(f: Frontier, count: int, name: seq<byte>, files: nat)
    requires FrontierInv(f, count) && |f| == count >= 1 && files >= 1
    ensures FrontierInv(Sort(f), count)
    ensures FrontierInv(Update(PopLast(Sort(f)), name, files), count)
  {
    SortKeepsInv(f, count);
    var s := Sort(f);
    var p := PopLast(s);
    assert forall e | e in p :: e in s;
    UpdateNames(p, name, files);
  }

  /** Each item after a step was in the frontier before, or is the line's own pair. */
  lemma StepMembers(f: Frontier, p: Parsed, count: int)
    requires FrontierInv(f, count) && Step(f, p, count).Success?
    ensures forall e | e in Step(f, p, count).value ::
      e in f || (p.Some? && e == Entry(p.value.0, p.value.1))
  {
    if p.Some? {
      var (name, files) := p.value;
      if |f| == count {
        SortKeepsInv(f, count);
        var s := Sort(f);
        if s[count - 1].files < files {
          var q := PopLast(s);
          assert forall e | e in q :: e in s;
          UpdateNames(q, name, files);
        }
      } else {
        UpdateNames(f, name, files);
      }
    }
  }

  /** Every frontier of the loop satisfies `FrontierInv`. */
  lemma {:induction false} RunInvariant(ps: seq<Parsed>, count: int)
    requires PositiveCounts(ps) && Run(ps, count).Success?
    ensures FrontierInv(Run(ps, count).value, count)
  {
    if ps != [] {
      var p := ps[..|ps| - 1];
      assert PositiveCounts(p) by {
        forall j | 0 <= j < |p| && p[j].Some? ensures p[j].value.1 >= 1 { assert p[j] == ps[j]; }
      }
      RunInvariant(p, count);
      StepKeepsInv(Run(p, count).value, ps[|ps| - 1], count);
    }
  }

  /** Each item of a frontier of the loop is the name and count of some line visited so far. */
  lemma {:induction false} RunProvenance(ps: seq<Parsed>, count: int)
    requires PositiveCounts(ps) && Run(ps, count).Success?
    ensures forall e | e in Run(ps, count).value :: ParsedFrom(ps, e)
  {
    if ps != [] {
      var p := ps[..|ps| - 1];
      assert PositiveCounts(p) by {
        forall j | 0 <= j < |p| && p[j].Some? ensures p[j].value.1 >= 1 { assert p[j] == ps[j]; }
      }
      RunProvenance(p, count);
      RunInvariant(p, count);
      var f := Run(p, count).value;
      StepMembers(f, ps[|ps| - 1], count);
      forall e | e in Run(ps, count).value ensures ParsedFrom(ps, e) {
        if e in f {
          var j :| 0 <= j < |p| && p[j] == Some((e.name, e.files));
          assert ps[j] == p[j];
        } else {
          assert ps[|ps| - 1] == Some((e.name, e.files));
        }
      }
    }
  }

  /** The result of `get_statistics`: sorted by count, largest first, with distinct keys,
      at most `count` items, positive counts, each item the name and count of some line of
      the index, and no more items than there are distinct keys (no padding). */
  lemma StatisticsProperties(contents: seq<byte>, count: int, top: Frontier)
    requires Statistics(contents, count) == Success(top)
    ensures SortedDesc(top) && DistinctNames(top)
    ensures count >= 0 ==> |top| <= count
    ensures forall e | e in top :: e.files >= 1
    ensures forall e | e in top :: exists j | 0 <= j < |Lines(contents).value| ::
      ParseLine(Lines(contents).value[j]) == Some((e.name, e.files))
    ensures |top| <= |SeenNames(ParseAll(Lines(contents).value))|
  {
    StatisticsOfRun(contents, count, top);
    var lines := Lines(contents).value;
    var ps := ParseAll(lines);
    var f := Run(ps, count).value;
    ParseAllPositive(lines);
    RunInvariant(ps, count);
    RunProvenance(ps, count);
    SortKeepsInv(f, count);
    forall e | e in top ensures exists j | 0 <= j < |lines| :: ParseLine(lines[j]) == Some((e.name, e.files)) {
      var j :| 0 <= j < |ps| && ps[j] == Some((e.name, e.files));
      assert ParseLine(lines[j]) == ps[j];
    }
    NamesWithinSeen(ps, top);
    NamesCardinality(top);
    SubsetCardinality(Names(top), SeenNames(ps));
  }

  /** `Statistics` succeeds exactly when the lines are found and the loop does not raise,
      and then returns the final frontier sorted. */
  lemma StatisticsOfRun(contents: seq<byte>, count: int, top: Frontier)
    requires Statistics(contents, count) == Success(top)
    ensures Lines(contents).Success? && Run(ParseAll(Lines(contents).value), count).Success?
    ensures top == Sort(Run(ParseAll(Lines(contents).value), count).value)
  {
  }

  lemma NamesWithinSeen(ps: seq<Parsed>, f: Frontier)
    requires forall e | e in f :: ParsedFrom(ps, e)
    ensures Names(f) <= SeenNames(ps)
  {
    forall n | n in Names(f) ensures n in SeenNames(ps) {
      var i :| 0 <= i < |f| && f[i].name == n;
      assert f[i] in f;
      var j :| 0 <= j < |ps| && ps[j] == Some((f[i].name, f[i].files));
    }
  }

  lemma {:induction false} SubsetCardinality<T>(a: set<T>, b: set<T>)
    requires a <= b
    ensures |a| <= |b|
  {
    if a != {} {
      var x :| x in a;
      SubsetCardinality(a - {x}, b - {x});
    }
  }

  /** The result is the frontier after the last line, sorted: a stable, non-increasing
      permutation of it. */
  lemma StatisticsIsSortedFrontier(contents: seq<byte>, count: int, top: Frontier)
    requires Statistics(contents, count) == Success(top)
    ensures Run(ParseAll(Lines(contents).value), count).Success?
    ensures var f := Run(ParseAll(Lines(contents).value), count).value;
      && multiset(top) == multiset(f) && SortedDesc(top)
      && forall v :: WithFiles(top, v) == WithFiles(f, v)
  {
    SortStable(Run(ParseAll(Lines(contents).value), count).value);
    SortPermutes(Run(ParseAll(Lines(contents).value), count).value);
  }

  /** The keys seen in `ps` are those seen before the last line and the last line's. */
  lemma SeenNamesLast(ps: seq<Parsed>)
    requires ps != []
    ensures var p, last := ps[..|ps| - 1], ps[|ps| - 1];
      SeenNames(ps) == SeenNames(p) + (if last.Some? then {last.value.0} else {})
  {
    var p := ps[..|ps| - 1];
    var last := ps[|ps| - 1];
    var seenLast := if last.Some? then {last.value.0} else {};
    forall n | n in SeenNames(ps) ensures n in SeenNames(p) + seenLast {
      var j :| 0 <= j < |ps| && ps[j].Some? && ps[j].value.0 == n;
      if j < |ps| - 1 { assert p[j] == ps[j]; }
    }
    forall n | n in SeenNames(p) ensures n in SeenNames(ps) {
      var j :| 0 <= j < |p| && p[j].Some? && p[j].value.0 == n;
      assert ps[j] == p[j];
    }
    if last.Some? {
      assert ps[|ps| - 1].value.0 in SeenNames(ps);
    }
  }

  /** On a frontier that is not full, a step adds the line's key, if any, to the keys. */
  lemma StepNotFullNames(f: Frontier, p: Parsed, count: int)
    requires FrontierInv(f, count) && |f| != count
    ensures Step(f, p, count).Success?
    ensures Names(Step(f, p, count).value) == Names(f) + (if p.Some? then {p.value.0} else {})
  {
    if p.Some? {
      var (name, files) := p.value;
      UpdateNames(f, name, files);
    }
  }

  /** While fewer distinct keys than `count` have been seen (or `count` is negative) the
      frontier never fills, so it holds every key seen. */
  lemma {:induction false} RunKeepsAllNames(ps: seq<Parsed>, count: int)
    requires PositiveCounts(ps)
    requires count < 0 || |SeenNames(ps)| < count
    ensures Run(ps, count).Success?
    ensures Names(Run(ps, count).value) == SeenNames(ps)
  {
    if ps != [] {
      var p := ps[..|ps| - 1];
      assert PositiveCounts(p) by {
        forall j | 0 <= j < |p| && p[j].Some? ensures p[j].value.1 >= 1 { assert p[j] == ps[j]; }
      }
      SeenNamesLast(ps);
      SubsetCardinality(SeenNames(p), SeenNames(ps));
      RunKeepsAllNames(p, count);
      var f := Run(p, count).value;
      RunInvariant(p, count);
      NamesCardinality(f);
      StepNotFullNames(f, ps[|ps| - 1], count);
    }
  }

  /** With fewer distinct keys than `count` (or a negative `count`) the result holds each
      key seen exactly once: its size is the number of distinct keys, not `count`. */
  lemma StatisticsNoPadding(contents: seq<byte>, count: int, top: Frontier)
    requires Statistics(contents, count) == Success(top)
    requires count < 0 || |SeenNames(ParseAll(Lines(contents).value))| < count
    ensures Names(top) == SeenNames(ParseAll(Lines(contents).value))
    ensures |top| == |SeenNames(ParseAll(Lines(contents).value))|
  {
    StatisticsOfRun(contents, count, top);
    var lines := Lines(contents).value;
    var ps := ParseAll(lines);
    ParseAllPositive(lines);
    RunKeepsAllNames(ps, count);
    var f := Run(ps, count).value;
    RunInvariant(ps, count);
    SortKeepsInv(f, count);
    SortNames(f);
    NamesCardinality(top);
  }

  /** With exactly `count` distinct keys the result can still hold fewer: a key seen
      again while the dict is full evicts the last item and then overwrites its own
      earlier item. With `count == 2` and the lines `a 1`, `b 1`, `a 5` for two distinct
      keys, key `b` is lost and the dict ends as `{a: 5}`. */
  lemma ReadmittedKeyShrinks(a: seq<byte>, b: seq<byte>)
    requires a != b
    ensures var ps: seq<Parsed> := [Some((a, 1)), Some((b, 1)), Some((a, 5))];
      && SeenNames(ps) == {a, b}
      && Run(ps, 2) == Success([Entry(a, 5)])
  {
    var ps: seq<Parsed> := [Some((a, 1)), Some((b, 1)), Some((a, 5))];
    assert ps[0].value.0 == a && ps[1].value.0 == b;
    assert SeenNames(ps) == {a, b};
    var f1, f2 := [Entry(a, 1)], [Entry(a, 1), Entry(b, 1)];
    assert Run(ps[..1], 2) == Success(f1) by {
      assert ps[..0] == [];
      StepAppends([], 2, Entry(a, 1));
      RunStep(ps, 1, 2, [], f1);
    }
    assert Step(f1, ps[1], 2) == Success(f2) by {
      NamesCons(Entry(a, 1), []);
      StepAppends(f1, 2, Entry(b, 1));
      assert f1 + [Entry(b, 1)] == f2;
    }
    RunStep(ps, 2, 2, f1, f2);
    ReadmitStep(a, b);
    RunStep(ps, 3, 2, f2, [Entry(a, 5)]);
    assert ps[..3] == ps;
  }

  /** The third line of `ReadmittedKeyShrinks`: `a` beats the smallest count, the sort
      leaves the dict as it is, `popitem` removes `b` and `update` overwrites `a`. */
  lemma ReadmitStep(a: seq<byte>, b: seq<byte>)
    requires a != b
    ensures Step([Entry(a, 1), Entry(b, 1)], Some((a, 5)), 2) == Success([Entry(a, 5)])
  {
    var f1, f2 := [Entry(a, 1)], [Entry(a, 1), Entry(b, 1)];
    assert SortedDesc(f2);
    SortSorted(f2);
    StepFull(f2, 2, a, 5);
    assert PopLast(f2) == f1;
    assert a in Names(f1) && DistinctNames(f1) by {
      assert f1[0].name == a;
    }
    var u := Update(f1, a, 5);
    assert |u| == 1 && u[0] == Entry(a, 5);
    assert u == [Entry(a, 5)];
  }

  // ---------------------------------------------------------------------------
  // The result is the top `count` entries

  /** The item of a line that parses. */
  function ParsedEntry(p: Parsed): Entry
    requires p.Some?
  {
    Entry(p.value.0, p.value.1)
  }

  /** No two lines that parse have the same key. A Contents index lists each path once,
      so in the index this holds. */
  ghost predicate DistinctKeys(ps: seq<Parsed>) {
    forall i, j | 0 <= i < j < |ps| && ps[i].Some? && ps[j].Some? :: ps[i].value.0 != ps[j].value.0
  }

  /** `e` has a place in `f`: it is in `f`, or `f` is full and `e`'s count is at most
      each count in `f`. */
  ghost predicate Kept(e: Entry, f: Frontier, count: int) {
    e in f || (|f| == count && forall t | t in f :: e.files <= t.files)
  }

  /** Every line that parses has a place in `f`. */
  ghost predicate TopInv(ps: seq<Parsed>, f: Frontier, count: int) {
    forall j | 0 <= j < |ps| && ps[j].Some? :: Kept(ParsedEntry(ps[j]), f, count)
  }

  /** One iteration keeps the place of every item that had one, and gives the line's own
      item a place, when its key is new. */
  lemma StepTopK(f: Frontier, q: Parsed, count: int)
    requires FrontierInv(f, count) && Step(f, q, count).Success?
    requires q.Some? ==> q.value.0 !in Names(f)
    ensures var g := Step(f, q, count).value;
      && (forall e | Kept(e, f, count) :: Kept(e, g, count))
      && (q.Some? ==> Kept(ParsedEntry(q), g, count))
  {
    if q.Some? {
      var (n, x) := q.value;
      if |f| != count {
        StepAppends(f, count, Entry(n, x));
      } else if x <= Sort(f)[count - 1].files {
        StallTopK(f, count, n, x);
      } else {
        EvictTopK(f, count, n, x);
      }
    }
  }

  /** A full dict and a line that does not beat its smallest count: the sorted dict is
      what remains, and the line's item is at most every count in it. */
  lemma StallTopK(f: Frontier, count: int, n: seq<byte>, x: nat)
    requires FrontierInv(f, count) && |f| == count >= 1 && x <= Sort(f)[count - 1].files
    ensures Step(f, Some((n, x)), count) == Success(Sort(f))
    ensures forall e | Kept(e, f, count) :: Kept(e, Sort(f), count)
    ensures Kept(Entry(n, x), Sort(f), count)
  {
    var s := Sort(f);
    StepFull(f, count, n, x);
    SortKeepsInv(f, count);
    SortMembers(f);
    SortedLastIsSmallest(f);
    forall e | Kept(e, f, count) ensures Kept(e, s, count) {
      if e !in f {
        forall t | t in s ensures e.files <= t.files {
          assert t in f;
        }
      }
    }
    forall t | t in s ensures x <= t.files {
      assert t in f;
    }
  }

  /** A full dict and a line with a new key that beats its smallest count: the evicted
      item and every item without a place have counts at most every count left. */
  lemma EvictTopK(f: Frontier, count: int, n: seq<byte>, x: nat)
    requires FrontierInv(f, count) && |f| == count >= 1 && n !in Names(f)
    requires Sort(f)[count - 1].files < x
    ensures Step(f, Some((n, x)), count).Success?
    ensures var g := Step(f, Some((n, x)), count).value;
      && (forall e | Kept(e, f, count) :: Kept(e, g, count))
      && Entry(n, x) in g
  {
    var s := Sort(f);
    SortKeepsInv(f, count);
    SortMembers(f);
    SortNames(f);
    var p := PopLast(s);
    assert n !in Names(p) by {
      forall i | 0 <= i < |p| ensures p[i].name != n {
        assert p[i] == s[i];
        assert s[i].name in Names(s);
      }
    }
    StepFull(f, count, n, x);
    EvictPlaces(f, s, count, n, x);
  }

  /** The eviction on a sorted copy `s` of a full dict `f`: the last item of `s` goes and
      the new one comes last; every count left is at least the evicted one. */
  lemma EvictPlaces(f: Frontier, s: Frontier, count: int, n: seq<byte>, x: nat)
    requires |f| == |s| == count >= 1 && SortedDesc(s) && s[count - 1].files < x
    requires (forall e | e in f :: e in s) && (forall t | t in s :: t in f)
    ensures var g := PopLast(s) + [Entry(n, x)];
      && (forall e | Kept(e, f, count) :: Kept(e, g, count))
      && Entry(n, x) in g
  {
    var p := PopLast(s);
    var g := p + [Entry(n, x)];
    var m := s[count - 1].files;
    assert forall t | t in g :: m <= t.files by {
      forall t | t in g ensures m <= t.files {
        if t != Entry(n, x) {
          var i :| 0 <= i < |p| && p[i] == t;
          assert p[i] == s[i];
        }
      }
    }
    forall e | Kept(e, f, count) ensures Kept(e, g, count) {
      if e in f {
        var k :| 0 <= k < |s| && s[k] == e;
        if k < count - 1 {
          assert p[k] == e;
        }
      } else {
        assert s[count - 1] in f;
      }
    }
    assert g[|g| - 1] == Entry(n, x);
  }

  /** With distinct keys every line that parses has a place in every dict of the loop. */
  lemma {:induction false} RunTopK(ps: seq<Parsed>, count: int)
    requires PositiveCounts(ps) && DistinctKeys(ps) && Run(ps, count).Success?
    ensures TopInv(ps, Run(ps, count).value, count)
  {
    if ps != [] {
      var p, q := ps[..|ps| - 1], ps[|ps| - 1];
      assert PositiveCounts(p) by {
        forall j | 0 <= j < |p| && p[j].Some? ensures p[j].value.1 >= 1 { assert p[j] == ps[j]; }
      }
      assert DistinctKeys(p) by {
        forall i, j | 0 <= i < j < |p| && p[i].Some? && p[j].Some? ensures p[i].value.0 != p[j].value.0 {
          assert p[i] == ps[i] && p[j] == ps[j];
        }
      }
      RunTopK(p, count);
      RunInvariant(p, count);
      RunProvenance(p, count);
      var f := Run(p, count).value;
      if q.Some? {
        forall i | 0 <= i < |f| ensures f[i].name != q.value.0 {
          assert f[i] in f;
          var j :| 0 <= j < |p| && p[j] == Some((f[i].name, f[i].files));
          assert ps[j] == p[j];
        }
      }
      StepTopK(f, q, count);
      var g := Run(ps, count).value;
      forall j | 0 <= j < |ps| && ps[j].Some? ensures Kept(ParsedEntry(ps[j]), g, count) {
        if j < |ps| - 1 {
          assert ps[j] == p[j];
        }
      }
    }
  }

  /** `get_statistics` returns the top `count` entries, when the keys are distinct: a
      line left out of the result comes with a full result and a count at most each
      count in it, and the result has `count` items, or every key when there are fewer. */
  lemma StatisticsIsTopK(contents: seq<byte>, count: int, top: Frontier)
    requires Statistics(contents, count) == Success(top)
    requires DistinctKeys(ParseAll(Lines(contents).value))
    ensures var lines := Lines(contents).value;
      forall j | 0 <= j < |lines| && ParseLine(lines[j]).Some? ::
        var e := ParsedEntry(ParseLine(lines[j]));
        e !in top ==> |top| == count && forall t | t in top :: e.files <= t.files
    ensures var seen := |SeenNames(ParseAll(Lines(contents).value))|;
      |top| == if 0 <= count <= seen then count else seen
  {
    StatisticsOfRun(contents, count, top);
    var lines := Lines(contents).value;
    var ps := ParseAll(lines);
    var f := Run(ps, count).value;
    ParseAllPositive(lines);
    RunTopK(ps, count);
    RunInvariant(ps, count);
    SortKeepsInv(f, count);
    SortMembers(f);
    forall j | 0 <= j < |lines| && ParseLine(lines[j]).Some?
      ensures var e := ParsedEntry(ParseLine(lines[j]));
        e !in top ==> |top| == count && forall t | t in top :: e.files <= t.files
    {
      assert ps[j] == ParseLine(lines[j]);
      var e := ParsedEntry(ps[j]);
      assert Kept(e, f, count);
      if e !in top {
        forall t | t in top ensures e.files <= t.files {
          assert t in f;
        }
      }
    }
    TopKSize(contents, count, top);
  }

  lemma TopKSize(contents: seq<byte>, count: int, top: Frontier)
    requires Statistics(contents, count) == Success(top)
    requires var lines := Lines(contents).value;
      forall j | 0 <= j < |lines| && ParseLine(lines[j]).Some? ::
        ParsedEntry(ParseLine(lines[j])) !in top ==> |top| == count
    ensures var seen := |SeenNames(ParseAll(Lines(contents).value))|;
      |top| == if 0 <= count <= seen then count else seen
  {
    var lines := Lines(contents).value;
    var ps := ParseAll(lines);
    var seen := SeenNames(ps);
    StatisticsProperties(contents, count, top);
    if 0 <= count <= |seen| {
      if |top| < count {
        assert forall j | 0 <= j < |ps| && ps[j].Some? :: ParsedEntry(ps[j]) in top by {
          forall j | 0 <= j < |ps| && ps[j].Some? ensures ParsedEntry(ps[j]) in top {
            assert ps[j] == ParseLine(lines[j]);
          }
        }
        SeenWithin(ps, top);
        SubsetCardinality(seen, Names(top));
        NamesCardinality(top);
      }
    } else {
      StatisticsNoPadding(contents, count, top);
    }
  }

  /** When every item parsed is in `top`, so is every key seen. */
  lemma SeenWithin(ps: seq<Parsed>, top: Frontier)
    requires forall j | 0 <= j < |ps| && ps[j].Some? :: ParsedEntry(ps[j]) in top
    ensures SeenNames(ps) <= Names(top)
  {
    forall n | n in SeenNames(ps) ensures n in Names(top) {
      var j :| 0 <= j < |ps| && ps[j].Some? && ps[j].value.0 == n;
      var i :| 0 <= i < |top| && top[i] == ParsedEntry(ps[j]);
    }
  }

  /** With `count == 0` the pass raises as soon as a line parses, and returns an
      empty result when none does. */
  lemma {:induction false} RunZeroCount(ps: seq<Parsed>)
    ensures (exists j | 0 <= j < |ps| :: ps[j].Some?) ==> Run(ps, 0) == Failure(EmptyFrontierIndex)
    ensures (forall j | 0 <= j < |ps| :: ps[j].None?) ==> Run(ps, 0) == Success([])
  {
    if ps != [] {
      var p := ps[..|ps| - 1];
      RunZeroCount(p);
      if exists j | 0 <= j < |ps| :: ps[j].Some? {
        var j :| 0 <= j < |ps| && ps[j].Some?;
        if j < |ps| - 1 {
          assert p[j].Some?;
        }
      }
      if forall j | 0 <= j < |ps| :: ps[j].None? {
        assert forall j | 0 <= j < |p| :: p[j].None? by {
          forall j | 0 <= j < |p| ensures p[j].None? { assert p[j] == ps[j]; }
        }
      }
    }
  }

  /** On a full frontier the sort leaves the smallest count last; a line whose increment
      does not exceed it changes nothing but the order (ties do not evict); a line whose
      increment exceeds it removes exactly that last item and is then written with
      `update`, which overwrites a key already present (the frontier then has one item
      fewer) and otherwise appends it, leaving every other item as it was. */
  lemma EvictionRule(f: Frontier, count: int, name: seq<byte>, files: nat)
    requires FrontierInv(f, count) && |f| == count >= 1
    ensures var s := Sort(f);
      && (forall e | e in f :: s[count - 1].files <= e.files)
      && (files <= s[count - 1].files ==> Step(f, Some((name, files)), count) == Success(s))
      && (s[count - 1].files < files ==>
        && Step(f, Some((name, files)), count).Success?
        && var g := Step(f, Some((name, files)), count).value;
        && s[count - 1] !in g
        && Entry(name, files) in g
        && (forall i | 0 <= i < count - 1 :: g[i] == (if s[i].name == name then Entry(name, files) else s[i]))
        && (|g| == count - 1 <==> name in Names(s[..count - 1]))
        && (|g| == count <==> name !in Names(s[..count - 1])))
  {
    var s := Sort(f);
    SortedLastIsSmallest(f);
    if s[count - 1].files < files {
      var g := Update(PopLast(s), name, files);
      assert Step(f, Some((name, files)), count) == Success(g) by { StepFull(f, count, name, files); }
      assert DistinctNames(s) by { SortKeepsInv(f, count); }
      AdmitShape(s, name, files);
      assert PopLast(s) == s[..count - 1];
    } else {
      StepFull(f, count, name, files);
    }
  }

  /** After the sort the last item has the smallest count of the frontier. */
  lemma SortedLastIsSmallest(f: Frontier)
    requires f != []
    ensures forall e | e in f :: Sort(f)[|f| - 1].files <= e.files
  {
    var s := Sort(f);
    SortMembers(f);
    forall e | e in f ensures s[|s| - 1].files <= e.files {
      var k :| 0 <= k < |s| && s[k] == e;
      assert k == |s| - 1 || s[k].files >= s[|s| - 1].files;
    }
  }

  /** The sort keeps every item. */
  lemma SortMembers(f: Frontier)
    ensures forall e | e in f :: e in Sort(f)
  {
    var s := Sort(f);
    SortPermutes(f);
    forall e | e in f ensures e in s {
      assert e in multiset(f);
      assert e in multiset(s);
    }
  }

  /** `popitem()` then `update` on a sorted frontier whose last count is below `files`. */
  lemma AdmitShape(s: Frontier, name: seq<byte>, files: nat)
    requires DistinctNames(s) && s != [] && s[|s| - 1].files < files
    ensures var g := Update(PopLast(s), name, files);
      && s[|s| - 1] !in g
      && Entry(name, files) in g
      && (forall i | 0 <= i < |s| - 1 :: g[i] == (if s[i].name == name then Entry(name, files) else s[i]))
      && (|g| == |s| - 1 <==> name in Names(PopLast(s)))
      && (|g| == |s| <==> name !in Names(PopLast(s)))
  {
    var p := PopLast(s);
    var g := Update(p, name, files);
    UpdateNames(p, name, files);
  }

  /** On a frontier that is not full, a line's key takes the line's increment as its
      count: in place, replacing any earlier count rather than adding to it, or at the
      end for a new key. */
  lemma FillRule(f: Frontier, count: int, name: seq<byte>, files: nat)
    requires FrontierInv(f, count) && |f| != count
    ensures name !in Names(f) ==> Step(f, Some((name, files)), count) == Success(f + [Entry(name, files)])
    ensures forall i | 0 <= i < |f| && f[i].name == name ::
      Step(f, Some((name, files)), count) == Success(f[i := Entry(name, files)])
  {
    forall i | 0 <= i < |f| && f[i].name == name
      ensures Step(f, Some((name, files)), count) == Success(f[i := Entry(name, files)])
    {
      var g := Update(f, name, files);
      assert g == f[i := Entry(name, files)];
    }
  }

  /** The loop's first `k` iterations, then one more. */
  lemma RunSnoc(ps: seq<Parsed>, k: nat, count: int)
    requires k < |ps|
    ensures Run(ps[..k], count).Failure? ==> Run(ps[..k + 1], count) == Run(ps[..k], count)
    ensures Run(ps[..k], count).Success? ==>
      Run(ps[..k + 1], count) == Step(Run(ps[..k], count).value, ps[k], count)
  {
    assert ps[..k + 1][..k] == ps[..k];
  }

  /** The frontier after `k` lines from the frontier after `k - 1`. */
  lemma RunStep(ps: seq<Parsed>, k: nat, count: int, f: Frontier, g: Frontier)
    requires 0 < k <= |ps| && Run(ps[..k - 1], count) == Success(f)
    requires Step(f, ps[k - 1], count) == Success(g)
    ensures Run(ps[..k], count) == Success(g)
  {
    RunSnoc(ps, k - 1, count);
  }

  /** While the frontier is not full, lines with new keys are appended in order: when
      the lines parse to the items `es`, whose keys are distinct, the frontier after the
      first `k <= count` of them is the first `k` items. */
  lemma {:induction false} FillPhase(ps: seq<Parsed>, es: Frontier, k: nat, count: int)
    requires k <= |es| <= |ps| && (count < 0 || k <= count) && DistinctNames(es)
    requires forall j | 0 <= j < |es| :: ps[j] == Some((es[j].name, es[j].files))
    ensures Run(ps[..k], count) == Success(es[..k])
  {
    if k > 0 {
      FillPhase(ps, es, k - 1, count);
      PrefixNameIsNew(es, k - 1);
      StepAppends(es[..k - 1], count, es[k - 1]);
      TakeSnoc(es, k);
      RunStep(ps, k, count, es[..k - 1], es[..k]);
    } else {
      assert ps[..k] == [] && es[..k] == [];
    }
  }

  lemma PrefixNameIsNew(es: Frontier, k: nat)
    requires k < |es| && DistinctNames(es)
    ensures es[k].name !in Names(es[..k])
  {
    var p := es[..k];
    forall i | 0 <= i < |p| ensures p[i].name != es[k].name {
      assert p[i] == es[i];
    }
  }

  lemma TakeSnoc<T>(s: seq<T>, k: nat)
    requires 0 < k <= |s|
    ensures s[..k] == s[..k - 1] + [s[k - 1]]
  {
  }

  /** A line with a new key, read while the frontier is not full, is appended. */
  lemma StepAppends(f: Frontier, count: int, e: Entry)
    requires |f| != count && e.name !in Names(f)
    ensures Step(f, Some((e.name, e.files)), count) == Success(f + [e])
  {
  }

  /** Once the frontier is full and sorted, lines whose count does not beat the smallest
      one change nothing. */
  lemma {:induction false} StallPhase(ps: seq<Parsed>, s: Frontier, lo: nat, hi: nat, count: int)
    requires count == |s| >= 1 && SortedDesc(s) && lo <= hi <= |ps|
    requires Run(ps[..lo], count) == Success(s)
    requires forall j | lo <= j < hi :: ps[j].Some? && ps[j].value.1 <= s[count - 1].files
    ensures Run(ps[..hi], count) == Success(s)
  {
    if hi > lo {
      StallPhase(ps, s, lo, hi - 1, count);
      StallKeeps(s, ps[hi - 1], count);
      RunStep(ps, hi, count, s, s);
    }
  }

  /** A line that does not beat the smallest count of a full sorted frontier leaves it. */
  lemma StallKeeps(s: Frontier, p: Parsed, count: int)
    requires |s| == count >= 1 && SortedDesc(s) && p.Some? && p.value.1 <= s[count - 1].files
    ensures Step(s, p, count) == Success(s)
  {
    SortSorted(s);
    StallStep(s, p, count);
  }

  /** A line that does not beat the smallest count of a full frontier only sorts it. */
  lemma StallStep(h: Frontier, p: Parsed, count: int)
    requires |h| == count >= 1 && p.Some? && p.value.1 <= Sort(h)[count - 1].files
    ensures Step(h, p, count) == Success(Sort(h))
  {
  }
}
