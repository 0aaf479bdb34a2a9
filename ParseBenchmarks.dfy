/**
 * `parse_benchmarks` (run_benchmark.py:155-185): the loop that turns the
 * benchmark records of Google Benchmark's JSON output into a table
 * format -> library -> time. Times stay opaque: a grouped value is the
 * reported time together with its unit, standing for
 * real_time * TIME_UNIT_TO_MS[time_unit] milliseconds.
 */
module ParseBenchmarks {
  import opened Wrappers
  import opened Seqs
  import opened PyDict
  import opened BenchmarkNames

  /** The units TIME_UNIT_TO_MS knows (run_benchmark.py:34-39). */
  datatype TimeUnit = Nanoseconds | Microseconds | Milliseconds | Seconds

  /** One entry of `data["benchmarks"]`: its name, real_time and time_unit. */
  datatype Benchmark<T> = Benchmark(name: string, realTime: T, timeUnit: string)

  /** A reported time and the unit it is expressed in. */
  datatype Duration<T> = Duration(realTime: T, unit: TimeUnit)

  /** The KeyError that `TIME_UNIT_TO_MS[time_unit]` raises for an unknown unit. */
  datatype ParseError = UnknownTimeUnit(timeUnit: string)

  /** format -> library -> time, every level a Python dict. */
  type Grouped<T> = Dict<string, Dict<string, Duration<T>>>

  /** `TIME_UNIT_TO_MS[unit]`, with None for the KeyError. */
  function ParseTimeUnit(unit: string): (r: Option<TimeUnit>)
    ensures r.Some? <==> unit in {"ns", "us", "ms", "s"}
  {
    if unit == "ns" then Some(Nanoseconds)
    else if unit == "us" then Some(Microseconds)
    else if unit == "ms" then Some(Milliseconds)
    else if unit == "s" then Some(Seconds)
    else None
  }

  /** Where a benchmark name lands: (format, library) after aliasing and renaming, None when skipped. */
  function Slot(name: string): Option<(string, string)>
  {
    match ParseName(name)
    case None => None
    case Some((library, format)) => Some((FormatAlias(format), DisplayName(library)))
  }

  /** Where a name built as library + " (" + format + ")" lands, for a library without a space. */
  lemma SlotOfFormatted(name: string, library: string, format: string)
    requires forall i :: 0 <= i < |library| ==> library[i] != ' '
    requires name == library + SEPARATOR + format + ")"
    ensures Slot(name) == Some((FormatAlias(format), DisplayName(library)))
  {
    NoSpaceNoSeparator(library);
    ParseNameOfFormatted(library, format);
  }

  /**
   * The benchmarks registered at src/packet_reading.cpp:270-279, as
   * (library, format) pairs: each is registered under the name
   * library + " (" + format + ")".
   */
  const REGISTERED: seq<(string, string)> := [
    ("fpcap", "pcap"), ("fpcap-fread", "pcap"), ("fpcap", "pcapng"), ("fpcap-fread", "pcapng"),
    ("fpcap", "pcapng.zst"), ("PcapPlusPlus", "pcap"), ("PcapPlusPlus", "pcapng"),
    ("PcapPlusPlus", "pcapng.zstd"), ("libpcap", "pcap"), ("libpcap", "pcapng")
  ]

  /** Every registered benchmark is accepted and lands under its aliased format and display name. */
  lemma RegisteredSlots(i: nat)
    requires i < |REGISTERED|
    ensures Slot(REGISTERED[i].0 + SEPARATOR + REGISTERED[i].1 + ")") ==
      Some((FormatAlias(REGISTERED[i].1), DisplayName(REGISTERED[i].0)))
  {
    assert forall k :: 0 <= k < |REGISTERED| ==> ' ' !in REGISTERED[k].0;
    SlotOfFormatted(REGISTERED[i].0 + SEPARATOR + REGISTERED[i].1 + ")", REGISTERED[i].0, REGISTERED[i].1);
  }

  /** The zstd-compressed fpcap benchmark is drawn as "fpcap (mmap)" in the "pcapng.zst(d)" group. */
  lemma ZstdFpcapSlot()
    ensures Slot("fpcap (pcapng.zst)") == Some(("pcapng.zst(d)", "fpcap (mmap)"))
  {
    SlotOfFormatted("fpcap (pcapng.zst)", "fpcap", "pcapng.zst");
  }

  /** `grouped[fmt][library] = value` on the `defaultdict(dict)`. */
  function Assign<T>(g: Grouped<T>, fmt: string, library: string, value: Duration<T>): Grouped<T>
  {
    Set(g, fmt, Set(GetOr(g, fmt, []), library, value))
  }

  /** One pass of the loop body (run_benchmark.py:160-183); the unit is looked up before the name is read. */
  function Step<T>(g: Grouped<T>, bm: Benchmark<T>): Result<Grouped<T>, ParseError>
  {
    match ParseTimeUnit(bm.timeUnit)
    case None => Err(UnknownTimeUnit(bm.timeUnit))
    case Some(unit) =>
      match Slot(bm.name)
      case None => Ok(g)
      case Some((fmt, library)) => Ok(Assign(g, fmt, library, Duration(bm.realTime, unit)))
  }

  /** What `parse_benchmarks` returns or raises: the loop body folded over the benchmarks in order. */
  function Group<T>(bms: seq<Benchmark<T>>): Result<Grouped<T>, ParseError>
  {
    if bms == [] then Ok([])
    else
      match Group(bms[..|bms| - 1])
      case Err(e) => Err(e)
      case Ok(g) => Step(g, bms[|bms| - 1])
  }

  /** The formats of the accepted benchmarks, in input order, repeats included. */
  function AcceptedFormats<T>(bms: seq<Benchmark<T>>): seq<string>
  {
    if bms == [] then []
    else
      AcceptedFormats(bms[..|bms| - 1]) +
      match Slot(bms[|bms| - 1].name)
      case None => []
      case Some((fmt, _)) => [fmt]
  }

  /** The libraries of the accepted benchmarks whose format is `f`, in input order. */
  function LibrariesUnder<T>(bms: seq<Benchmark<T>>, f: string): seq<string>
  {
    if bms == [] then []
    else
      LibrariesUnder(bms[..|bms| - 1], f) +
      match Slot(bms[|bms| - 1].name)
      case Some((fmt, library)) => if fmt == f then [library] else []
      case None => []
  }

  /** Number of (format, library) entries in the table, as printed at run_benchmark.py:277. */
  function Entries<V>(g: Dict<string, Dict<string, V>>): nat
  {
    if g == [] then 0 else |g[0].1| + Entries(g[1..])
  }

  /**
   * The method the script runs: it fills `grouped` entry by entry and
   * stops at the first unknown time unit.
   */
  method ParseBenchmarks<T>(benchmarks: seq<Benchmark<T>>) returns (result: Result<Grouped<T>, ParseError>)
    ensures result == Group(benchmarks)
  {
    var grouped: Grouped<T> := [];
    for i := 0 to |benchmarks|
      invariant Group(benchmarks[..i]) == Ok(grouped)
    {
      var bm := benchmarks[i];
      assert benchmarks[..i + 1][..i] == benchmarks[..i];
      var unit := ParseTimeUnit(bm.timeUnit);
      if unit.None? {
        result := Err(UnknownTimeUnit(bm.timeUnit));
        ErrorPersists(benchmarks, i + 1);
        return;
      }
      var parts := ParseName(bm.name);
      if parts.None? {
        continue;
      }
      var library := parts.value.0;
      var fmt := parts.value.1;
      library := DisplayName(library);
      fmt := FormatAlias(fmt);
      grouped := Assign(grouped, fmt, library, Duration(bm.realTime, unit.value));
    }
    assert benchmarks[..|benchmarks|] == benchmarks;
    result := Ok(grouped);
  }

  /** An exception ends the loop: once a prefix raises, the whole input raises the same error. */
  lemma {:induction false} ErrorPersists<T>(bms: seq<Benchmark<T>>, i: nat)
    requires i <= |bms| && Group(bms[..i]).Err?
    ensures Group(bms) == Group(bms[..i])
    decreases |bms| - i
  {
    if i < |bms| {
      var p := bms[..|bms| - 1];
      assert p[..i] == bms[..i];
      ErrorPersists(p, i);
    } else {
      assert bms[..i] == bms;
    }
  }

  /** A table is only produced when every time unit is known. */
  lemma {:induction false} GroupSucceedsOnKnownUnits<T>(bms: seq<Benchmark<T>>)
    ensures Group(bms).Ok? <==> forall k :: 0 <= k < |bms| ==> ParseTimeUnit(bms[k].timeUnit).Some?
  {
    GroupOkIffUnitsKnown(bms);
    UnitsKnownEverywhere(bms);
  }

  /** Every time unit of the prefix is known, checked from the end as the fold runs. */
  predicate UnitsKnown<T>(bms: seq<Benchmark<T>>)
  {
    bms == [] || (UnitsKnown(bms[..|bms| - 1]) && ParseTimeUnit(bms[|bms| - 1].timeUnit).Some?)
  }

  lemma {:induction false} GroupOkIffUnitsKnown<T>(bms: seq<Benchmark<T>>)
    ensures Group(bms).Ok? <==> UnitsKnown(bms)
  {
    if bms != [] {
      GroupOkIffUnitsKnown(bms[..|bms| - 1]);
      GroupOkStep(bms);
    }
  }

  lemma {:induction false} UnitsKnownEverywhere<T>(bms: seq<Benchmark<T>>)
    ensures UnitsKnown(bms) <==> forall k :: 0 <= k < |bms| ==> ParseTimeUnit(bms[k].timeUnit).Some?
  {
    if bms != [] {
      var p := bms[..|bms| - 1];
      UnitsKnownEverywhere(p);
      assert forall k :: 0 <= k < |p| ==> p[k] == bms[k];
    }
  }

  /** The fold continues exactly while the prefix succeeded and the next unit is known. */
  lemma GroupOkStep<T>(bms: seq<Benchmark<T>>)
    requires bms != []
    ensures Group(bms).Ok? <==>
      Group(bms[..|bms| - 1]).Ok? && ParseTimeUnit(bms[|bms| - 1].timeUnit).Some?
  {
  }

  /**
   * The error raised names the first unknown unit, whatever the names of
   * the benchmarks: the lookup precedes the name check.
   */
  lemma {:induction false} GroupFailsAtFirstUnknownUnit<T>(bms: seq<Benchmark<T>>, i: nat)
    requires i < |bms| && ParseTimeUnit(bms[i].timeUnit).None?
    requires forall k :: 0 <= k < i ==> ParseTimeUnit(bms[k].timeUnit).Some?
    ensures Group(bms) == Err(UnknownTimeUnit(bms[i].timeUnit))
  {
    var p := bms[..i];
    assert forall k :: 0 <= k < |p| ==> p[k] == bms[k];
    GroupSucceedsOnKnownUnits(p);
    assert bms[..i + 1][..i] == p;
    ErrorPersists(bms, i + 1);
  }

  /** Every level of the table is a proper dict: no key twice. */
  ghost predicate WellFormedGrouped<T>(g: Grouped<T>)
  {
    WellFormed(g) && forall f :: f in Keys(g) ==> WellFormed(Get(g, f))
  }

  /** The formats of the table are the accepted formats in order of first appearance. */
  lemma {:induction false} GroupFormats<T>(bms: seq<Benchmark<T>>)
    requires Group(bms).Ok?
    ensures Keys(Group(bms).value) == Dedup(AcceptedFormats(bms))
  {
    if bms != [] {
      var p := bms[..|bms| - 1];
      var b := bms[|bms| - 1];
      GroupOkStep(bms);
      GroupFormats(p);
      var af := AcceptedFormats(p);
      var g' := Group(p).value;
      match Slot(b.name)
      case None =>
        assert Group(bms) == Ok(g');
        assert AcceptedFormats(bms) == af;
      case Some((fmt, library)) =>
        var v := Duration(b.realTime, ParseTimeUnit(b.timeUnit).value);
        assert Group(bms) == Ok(Assign(g', fmt, library, v));
        AssignFormats(g', fmt, library, v);
        assert AcceptedFormats(bms) == af + [fmt];
        DedupSnoc(af, fmt);
    }
  }

  /** No format is accepted exactly when every name is skipped. */
  lemma {:induction false} AcceptedFormatsEmpty<T>(bms: seq<Benchmark<T>>)
    ensures AcceptedFormats(bms) == [] <==> forall k :: 0 <= k < |bms| ==> Slot(bms[k].name).None?
  {
    if bms != [] {
      var p := bms[..|bms| - 1];
      AcceptedFormatsEmpty(p);
      assert forall k :: 0 <= k < |p| ==> p[k] == bms[k];
    }
  }

  /**
   * The script stops with "no benchmark results parsed" (run_benchmark.py:272-275)
   * exactly when every benchmark name was skipped.
   */
  lemma NothingParsed<T>(bms: seq<Benchmark<T>>)
    requires Group(bms).Ok?
    ensures Group(bms).value == [] <==> forall k :: 0 <= k < |bms| ==> Slot(bms[k].name).None?
  {
    GroupFormats(bms);
    AcceptedFormatsEmpty(bms);
    var af := AcceptedFormats(bms);
    if af != [] {
      assert af[0] in Dedup(af);
    }
  }

  /**
   * The shape of the table: under each format its libraries are those of the
   * accepted benchmarks with that format, in order of first appearance, so a
   * (format, library) pair is in the table exactly when some accepted
   * benchmark maps to it.
   */
  lemma {:induction false} GroupLibraries<T>(bms: seq<Benchmark<T>>)
    requires Group(bms).Ok?
    ensures forall f :: f in Keys(Group(bms).value) ==>
      Keys(Get(Group(bms).value, f)) == Dedup(LibrariesUnder(bms, f))
  {
    if bms != [] {
      var p := bms[..|bms| - 1];
      var b := bms[|bms| - 1];
      GroupOkStep(bms);
      GroupLibraries(p);
      var g' := Group(p).value;
      match Slot(b.name)
      case None =>
        assert Group(bms) == Ok(g');
        forall f ensures LibrariesUnder(bms, f) == LibrariesUnder(p, f) {
        }
      case Some((fmt, library)) =>
        var v := Duration(b.realTime, ParseTimeUnit(b.timeUnit).value);
        var g := Assign(g', fmt, library, v);
        assert Group(bms) == Ok(g);
        AssignFormats(g', fmt, library, v);
        forall f | f in Keys(g)
          ensures Keys(Get(g, f)) == Dedup(LibrariesUnder(bms, f))
        {
          var lu := LibrariesUnder(p, f);
          if f == fmt {
            AssignLibraries(g', fmt, library, v);
            assert LibrariesUnder(bms, f) == lu + [library];
            DedupSnoc(lu, library);
            if fmt !in Keys(g') {
              GroupFormats(p);
              LibrariesUnderUnseen(p, f);
              assert GetOr(g', fmt, []) == [];
            } else {
              assert GetOr(g', fmt, []) == Get(g', fmt);
            }
          } else {
            assert LibrariesUnder(bms, f) == lu;
            AssignOthers(g', fmt, library, v, f);
          }
        }
    }
  }

  /** No dict in the table repeats a key. */
  lemma {:induction false} GroupWellFormed<T>(bms: seq<Benchmark<T>>)
    requires Group(bms).Ok?
    ensures WellFormedGrouped(Group(bms).value)
  {
    if bms != [] {
      var p := bms[..|bms| - 1];
      var b := bms[|bms| - 1];
      GroupOkStep(bms);
      GroupWellFormed(p);
      var g' := Group(p).value;
      match Slot(b.name)
      case None =>
        assert Group(bms) == Ok(g');
      case Some((fmt, library)) =>
        var v := Duration(b.realTime, ParseTimeUnit(b.timeUnit).value);
        assert Group(bms) == Ok(Assign(g', fmt, library, v));
        AssignWellFormed(g', fmt, library, v);
    }
  }

  /** `grouped[fmt][library] = value` appends a format that is new and leaves the order otherwise. */
  lemma AssignFormats<T>(g: Grouped<T>, fmt: string, library: string, v: Duration<T>)
    ensures Keys(Assign(g, fmt, library, v)) == if fmt in Keys(g) then Keys(g) else Keys(g) + [fmt]
    ensures fmt in Keys(Assign(g, fmt, library, v))
    ensures Get(Assign(g, fmt, library, v), fmt) == Set(GetOr(g, fmt, []), library, v)
  {
    SetKeys(g, fmt, Set(GetOr(g, fmt, []), library, v));
    SetGet(g, fmt, Set(GetOr(g, fmt, []), library, v));
  }

  /** Within its format, the library is appended when new and now holds the value; its neighbours keep theirs. */
  lemma AssignLibraries<T>(g: Grouped<T>, fmt: string, library: string, v: Duration<T>)
    ensures var inner := GetOr(g, fmt, []);
            var inner' := Set(inner, library, v);
            && Keys(inner') == (if library in Keys(inner) then Keys(inner) else Keys(inner) + [library])
            && library in Keys(inner') && Get(inner', library) == v
            && forall l :: l in Keys(inner) && l != library ==> Get(inner', l) == Get(inner, l)
  {
    var inner := GetOr(g, fmt, []);
    SetKeys(inner, library, v);
    SetGet(inner, library, v);
    forall l | l in Keys(inner) && l != library ensures Get(Set(inner, library, v), l) == Get(inner, l) {
      SetGetOther(inner, library, v, l);
    }
  }

  /** Other formats keep their dicts. */
  lemma AssignOthers<T>(g: Grouped<T>, fmt: string, library: string, v: Duration<T>, f: string)
    requires f in Keys(g) && f != fmt
    ensures f in Keys(Assign(g, fmt, library, v)) && Get(Assign(g, fmt, library, v), f) == Get(g, f)
  {
    SetGetOther(g, fmt, Set(GetOr(g, fmt, []), library, v), f);
  }

  /** No dict in the table gains a repeated key. */
  lemma AssignWellFormed<T>(g: Grouped<T>, fmt: string, library: string, v: Duration<T>)
    requires WellFormedGrouped(g)
    ensures WellFormedGrouped(Assign(g, fmt, library, v))
  {
    var inner := GetOr(g, fmt, []);
    var r := Assign(g, fmt, library, v);
    SetWellFormed(g, fmt, Set(inner, library, v));
    SetWellFormed(inner, library, v);
    AssignFormats(g, fmt, library, v);
    forall f | f in Keys(r) ensures WellFormed(Get(r, f)) {
      if f != fmt {
        AssignOthers(g, fmt, library, v, f);
      }
    }
  }

  /** A format no accepted benchmark has collects no library. */
  lemma {:induction false} LibrariesUnderUnseen<T>(bms: seq<Benchmark<T>>, f: string)
    requires f !in AcceptedFormats(bms)
    ensures LibrariesUnder(bms, f) == []
  {
    if bms != [] {
      var p := bms[..|bms| - 1];
      assert AcceptedFormats(p) <= AcceptedFormats(bms);
      LibrariesUnderUnseen(p, f);
    }
  }

  /**
   * Last write wins: the value under (format, library) is the time of the
   * last accepted benchmark mapping to that pair.
   */
  lemma {:induction false} LastWriteWins<T>(bms: seq<Benchmark<T>>, j: nat)
    requires Group(bms).Ok?
    requires j < |bms| && Slot(bms[j].name).Some?
    requires forall k :: j < k < |bms| ==> Slot(bms[k].name) != Slot(bms[j].name)
    ensures ParseTimeUnit(bms[j].timeUnit).Some?
    ensures var fmt := Slot(bms[j].name).value.0;
            var library := Slot(bms[j].name).value.1;
            var g := Group(bms).value;
            && fmt in Keys(g) && library in Keys(Get(g, fmt))
            && Get(Get(g, fmt), library) == Duration(bms[j].realTime, ParseTimeUnit(bms[j].timeUnit).value)
  {
    GroupSucceedsOnKnownUnits(bms);
    GroupOkStep(bms);
    var p := bms[..|bms| - 1];
    var b := bms[|bms| - 1];
    var g' := Group(p).value;
    var fmt := Slot(bms[j].name).value.0;
    var library := Slot(bms[j].name).value.1;
    if j == |bms| - 1 {
      var v := Duration(b.realTime, ParseTimeUnit(b.timeUnit).value);
      assert Group(bms) == Ok(Assign(g', fmt, library, v));
      AssignFormats(g', fmt, library, v);
      AssignLibraries(g', fmt, library, v);
    } else {
      assert p[j] == bms[j];
      assert forall k :: j < k < |p| ==> p[k] == bms[k];
      LastWriteWins(p, j);
      match Slot(b.name)
      case None =>
        assert Group(bms) == Ok(g');
      case Some((fmt', library')) =>
        var v' := Duration(b.realTime, ParseTimeUnit(b.timeUnit).value);
        assert Group(bms) == Ok(Assign(g', fmt', library', v'));
        if fmt' == fmt {
          assert library' != library;
          AssignFormats(g', fmt', library', v');
          AssignLibraries(g', fmt', library', v');
          assert GetOr(g', fmt, []) == Get(g', fmt);
        } else {
          AssignOthers(g', fmt', library', v', fmt);
        }
    }
  }

  /** Each accepted benchmark adds at most one entry; skipped ones add none. */
  lemma {:induction false} GroupEntriesBound<T>(bms: seq<Benchmark<T>>)
    requires Group(bms).Ok?
    ensures Entries(Group(bms).value) <= |AcceptedFormats(bms)| <= |bms|
  {
    if bms != [] {
      var p := bms[..|bms| - 1];
      var b := bms[|bms| - 1];
      GroupOkStep(bms);
      GroupEntriesBound(p);
      var g' := Group(p).value;
      match Slot(b.name)
      case None =>
        assert Group(bms) == Ok(g');
        assert AcceptedFormats(bms) == AcceptedFormats(p);
      case Some((fmt, library)) =>
        var v := Duration(b.realTime, ParseTimeUnit(b.timeUnit).value);
        var inner := GetOr(g', fmt, []);
        assert Group(bms) == Ok(Set(g', fmt, Set(inner, library, v)));
        assert AcceptedFormats(bms) == AcceptedFormats(p) + [fmt];
        AssignLibraries(g', fmt, library, v);
        assert |Set(inner, library, v)| <= |inner| + 1;
        EntriesOfSet(g', fmt, Set(inner, library, v));
    }
  }

  /** Replacing or adding one group changes the entry count by the group sizes. */
  lemma {:induction false} EntriesOfSet<V>(g: Dict<string, Dict<string, V>>, k: string, inner: Dict<string, V>)
    ensures Entries(Set(g, k, inner)) + (if k in Keys(g) then |Get(g, k)| else 0) == Entries(g) + |inner|
  {
    if g != [] && g[0].0 != k {
      EntriesOfSet(g[1..], k, inner);
      assert Keys(g) == [g[0].0] + Keys(g[1..]);
      assert Set(g, k, inner)[1..] == Set(g[1..], k, inner);
    }
  }

  /** Group unfolded at an explicit last element. */
  lemma GroupSnoc<T>(p: seq<Benchmark<T>>, b: Benchmark<T>)
    ensures Group(p + [b]) == if Group(p).Err? then Group(p) else Step(Group(p).value, b)
  {
    assert (p + [b])[..|p|] == p;
  }

  /** A skipped name (with a known unit) contributes nothing, wherever it stands. */
  lemma {:induction false} SkippedNameContributesNothing<T>(a: seq<Benchmark<T>>, skipped: Benchmark<T>, b: seq<Benchmark<T>>)
    requires ParseName(skipped.name).None? && ParseTimeUnit(skipped.timeUnit).Some?
    ensures Group(a + [skipped] + b) == Group(a + b)
  {
    if b == [] {
      GroupSnoc(a, skipped);
      assert a + [skipped] + b == a + [skipped];
      assert a + b == a;
    } else {
      var b' := b[..|b| - 1];
      var last := b[|b| - 1];
      SkippedNameContributesNothing(a, skipped, b');
      ConcatSnoc(a + [skipped], b);
      ConcatSnoc(a, b);
      GroupSnoc(a + [skipped] + b', last);
      GroupSnoc(a + b', last);
    }
  }
}
