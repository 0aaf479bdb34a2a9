/**
 * The ordering work at the top of `plot_results` (run_benchmark.py:188-212):
 * which libraries the chart knows about and in which order, in which order
 * the format groups are drawn, and which bars each group gets.
 */
module ChartOrder {
  import opened Seqs
  import opened PyDict
  import opened BenchmarkNames
  import opened ParseBenchmarks

  /** The formats the chart places first, in this order (run_benchmark.py:32). */
  const FORMAT_ORDER: seq<string> := ["pcap", "pcapng", "pcapng.zst(d)"]

  /** The libraries of `fmt` in insertion order, nothing when the table lacks `fmt`. */
  function LibrariesOf<T>(g: Grouped<T>, fmt: string): seq<string>
  {
    if fmt in Keys(g) then Keys(Get(g, fmt)) else []
  }

  /**
   * Every library the collection loop meets, repeats included, when it walks
   * the formats of `order` that the table holds.
   */
  function VisitedLibraries<T>(g: Grouped<T>, order: seq<string>): seq<string>
  {
    if order == [] then []
    else VisitedLibraries(g, order[..|order| - 1]) + LibrariesOf(g, order[|order| - 1])
  }

  lemma VisitedSnoc<T>(g: Grouped<T>, p: seq<string>, f: string)
    ensures VisitedLibraries(g, p + [f]) == VisitedLibraries(g, p) + LibrariesOf(g, f)
  {
    assert (p + [f])[..|p|] == p;
  }

  /** A library is met exactly when some visited format holds it. */
  lemma {:induction false} VisitedLibrariesMembers<T>(g: Grouped<T>, order: seq<string>, lib: string)
    ensures lib in VisitedLibraries(g, order) <==> exists f :: f in order && lib in LibrariesOf(g, f)
  {
    if order != [] {
      var p := order[..|order| - 1];
      var f := order[|order| - 1];
      assert order == p + [f];
      VisitedLibrariesMembers(g, p, lib);
      VisitedSnoc(g, p, f);
      assert forall f' :: f' in order <==> f' in p || f' == f;
    }
  }

  /**
   * The `all_libraries` loop (run_benchmark.py:191-196) walking the formats
   * of `order`: each library of each visited format is appended unless it
   * is already listed. The script walks FORMAT_ORDER.
   */
  method CollectLibraries<T>(grouped: Grouped<T>, order: seq<string>) returns (allLibraries: seq<string>)
    ensures allLibraries == Dedup(VisitedLibraries(grouped, order))
  {
    allLibraries := [];
    for i := 0 to |order|
      invariant allLibraries == Dedup(VisitedLibraries(grouped, order[..i]))
    {
      var fmt := order[i];
      assert order[..i + 1] == order[..i] + [fmt];
      VisitedSnoc(grouped, order[..i], fmt);
      if fmt in Keys(grouped) {
        var libs := Keys(Get(grouped, fmt));
        ghost var visited := VisitedLibraries(grouped, order[..i]);
        assert visited + libs[..0] == visited;
        for j := 0 to |libs|
          invariant allLibraries == Dedup(visited + libs[..j])
        {
          var lib := libs[j];
          DedupExtend(visited, libs, j);
          if lib !in allLibraries {
            allLibraries := allLibraries + [lib];
          }
        }
        assert libs[..|libs|] == libs;
      } else {
        assert VisitedLibraries(grouped, order[..i]) + [] == VisitedLibraries(grouped, order[..i]);
      }
    }
    assert order[..|order|] == order;
  }

  /** Dedup over one more element of `ys`. */
  lemma DedupExtend<T>(xs: seq<T>, ys: seq<T>, j: nat)
    requires j < |ys|
    ensures Dedup(xs + ys[..j + 1]) ==
      if ys[j] in Dedup(xs + ys[..j]) then Dedup(xs + ys[..j]) else Dedup(xs + ys[..j]) + [ys[j]]
  {
    assert xs + ys[..j + 1] == (xs + ys[..j]) + [ys[j]];
    DedupSnoc(xs + ys[..j], ys[j]);
  }

  /** `all_libraries` as the script builds it: only formats listed in FORMAT_ORDER are visited. */
  function AllLibrariesAsWritten<T>(g: Grouped<T>): seq<string>
  {
    Dedup(VisitedLibraries(g, FORMAT_ORDER))
  }

  /**
   * The libraries the script's `all_libraries` holds: no repeats, in order
   * of first appearance, and exactly those under some format of FORMAT_ORDER.
   */
  lemma AllLibrariesAsWrittenMembers<T>(g: Grouped<T>)
    ensures Distinct(AllLibrariesAsWritten(g))
    ensures OrderedBy(AllLibrariesAsWritten(g), VisitedLibraries(g, FORMAT_ORDER))
    ensures forall lib :: lib in AllLibrariesAsWritten(g) <==>
      exists f :: f in FORMAT_ORDER && f in Keys(g) && lib in Keys(Get(g, f))
  {
    forall lib ensures lib in AllLibrariesAsWritten(g) <==>
      exists f :: f in FORMAT_ORDER && f in Keys(g) && lib in Keys(Get(g, f))
    {
      VisitedLibrariesMembers(g, FORMAT_ORDER, lib);
      var v := VisitedLibraries(g, FORMAT_ORDER);
      if lib in v {
        var i :| 0 <= i < |v| && v[i] == lib;
      }
    }
  }

  /**
   * `[x for x in xs if (x in pool) == inside]`: the comprehensions at
   * run_benchmark.py:199, 200 and 212, which keep the order of `xs`.
   */
  function Select<T(==)>(xs: seq<T>, pool: seq<T>, inside: bool): (r: seq<T>)
    ensures forall i :: 0 <= i < |r| ==> r[i] in xs && (r[i] in pool <==> inside)
    ensures forall i :: 0 <= i < |xs| && (xs[i] in pool <==> inside) ==> xs[i] in r
    ensures Distinct(xs) ==> OrderedBy(r, xs)
  {
    if xs == [] then []
    else
      var p := xs[..|xs| - 1];
      var x := xs[|xs| - 1];
      assert xs == p + [x];
      var r := Select(p, pool, inside);
      if x in pool <==> inside then
        assert Distinct(xs) ==> Distinct(p) && x !in p;
        if Distinct(xs) then
          OrderedByAppend(r, p, x);
          r + [x]
        else
          r + [x]
      else if Distinct(xs) then
        assert Distinct(p);
        OrderedByExtend(r, p, [x]);
        r
      else
        r
  }

  /** The format group order (run_benchmark.py:199-200): known formats first, then the rest. */
  function OrderedFormats<T>(g: Grouped<T>): seq<string>
  {
    Select(FORMAT_ORDER, Keys(g), true) + Select(Keys(g), FORMAT_ORDER, false)
  }

  lemma FormatOrderDistinct()
    ensures Distinct(FORMAT_ORDER)
  {
  }

  /** The formats drawn are the table's formats, each exactly once. */
  lemma FormatsArePermutation<T>(g: Grouped<T>)
    requires WellFormed(g)
    ensures Distinct(OrderedFormats(g))
    ensures multiset(OrderedFormats(g)) == multiset(Keys(g))
  {
    var known := Select(FORMAT_ORDER, Keys(g), true);
    var unknown := Select(Keys(g), FORMAT_ORDER, false);
    var r := known + unknown;
    FormatOrderDistinct();
    OrderedByIsDistinct(known, FORMAT_ORDER);
    OrderedByIsDistinct(unknown, Keys(g));
    forall i, j | 0 <= i < j < |r| ensures r[i] != r[j] {
      if j < |known| {
        assert r[i] == known[i] && r[j] == known[j];
      } else if i >= |known| {
        assert r[i] == unknown[i - |known|] && r[j] == unknown[j - |known|];
      } else {
        assert r[i] == known[i] && r[i] in FORMAT_ORDER;
        assert r[j] == unknown[j - |known|] && r[j] !in FORMAT_ORDER;
      }
    }
    forall x ensures x in r <==> x in Keys(g) {
      if x in Keys(g) {
        var k :| 0 <= k < |Keys(g)| && Keys(g)[k] == x;
        if x in FORMAT_ORDER {
          var k' :| 0 <= k' < |FORMAT_ORDER| && FORMAT_ORDER[k'] == x;
        }
      }
    }
    SameElementsPermutation(r, Keys(g));
  }

  /**
   * The order of the format groups: every known format comes before every
   * unknown one, the known ones follow FORMAT_ORDER, and the unknown ones
   * keep the order in which they were first inserted into the table.
   */
  lemma FormatsOrder<T>(g: Grouped<T>)
    requires WellFormed(g)
    ensures forall i :: 0 <= i < |OrderedFormats(g)| ==> OrderedFormats(g)[i] in Keys(g)
    ensures forall i, j :: 0 <= i < j < |OrderedFormats(g)| && OrderedFormats(g)[j] in FORMAT_ORDER ==>
      OrderedFormats(g)[i] in FORMAT_ORDER
    ensures forall i, j ::
      (0 <= i < j < |OrderedFormats(g)| &&
       OrderedFormats(g)[i] in FORMAT_ORDER && OrderedFormats(g)[j] in FORMAT_ORDER) ==>
      FirstIndex(FORMAT_ORDER, OrderedFormats(g)[i]) < FirstIndex(FORMAT_ORDER, OrderedFormats(g)[j])
    ensures forall i, j ::
      (0 <= i < j < |OrderedFormats(g)| &&
       OrderedFormats(g)[i] !in FORMAT_ORDER && OrderedFormats(g)[j] !in FORMAT_ORDER) ==>
      FirstIndex(Keys(g), OrderedFormats(g)[i]) < FirstIndex(Keys(g), OrderedFormats(g)[j])
  {
    FormatOrderDistinct();
    PartitionOrder(Select(FORMAT_ORDER, Keys(g), true), Select(Keys(g), FORMAT_ORDER, false),
      FORMAT_ORDER, Keys(g));
  }

  /**
   * `a + b`, where `a` lists members of `pool` in the order of `pool` and
   * `b` lists non-members in the order of `rest`.
   */
  lemma PartitionOrder<T>(a: seq<T>, b: seq<T>, pool: seq<T>, rest: seq<T>)
    requires forall i :: 0 <= i < |a| ==> a[i] in pool && a[i] in rest
    requires forall i :: 0 <= i < |b| ==> b[i] !in pool && b[i] in rest
    requires OrderedBy(a, pool) && OrderedBy(b, rest)
    ensures forall i :: 0 <= i < |a + b| ==> (a + b)[i] in rest
    ensures forall i, j :: 0 <= i < j < |a + b| && (a + b)[j] in pool ==> (a + b)[i] in pool
    ensures forall i, j :: 0 <= i < j < |a + b| && (a + b)[i] in pool && (a + b)[j] in pool ==>
      FirstIndex(pool, (a + b)[i]) < FirstIndex(pool, (a + b)[j])
    ensures forall i, j :: 0 <= i < j < |a + b| && (a + b)[i] !in pool && (a + b)[j] !in pool ==>
      FirstIndex(rest, (a + b)[i]) < FirstIndex(rest, (a + b)[j])
  {
    var r := a + b;
    assert forall k :: 0 <= k < |a| ==> r[k] == a[k];
    assert forall k :: |a| <= k < |r| ==> r[k] == b[k - |a|];
  }

  /**
   * `libs` for one format group (run_benchmark.py:211-212): the libraries of
   * `allLibraries` that the group holds, in the order of `allLibraries`.
   */
  function FormatLibraries(allLibraries: seq<string>, libsInFmt: seq<string>): (libs: seq<string>)
    ensures forall lib :: lib in libs <==> lib in allLibraries && lib in libsInFmt
    ensures Distinct(allLibraries) ==> OrderedBy(libs, allLibraries) && Distinct(libs)
  {
    var libs := Select(allLibraries, libsInFmt, true);
    assert Distinct(allLibraries) ==> Distinct(libs) by {
      if Distinct(allLibraries) {
        OrderedByIsDistinct(libs, allLibraries);
      }
    }
    assert forall lib :: lib in libs ==> lib in allLibraries && lib in libsInFmt by {
      forall lib | lib in libs ensures lib in allLibraries && lib in libsInFmt {
        var i :| 0 <= i < |libs| && libs[i] == lib;
      }
    }
    assert forall lib :: lib in allLibraries && lib in libsInFmt ==> lib in libs by {
      forall lib | lib in allLibraries && lib in libsInFmt ensures lib in libs {
        var i :| 0 <= i < |allLibraries| && allLibraries[i] == lib;
      }
    }
    libs
  }

  /** A table holding one result, for a format outside FORMAT_ORDER. */
  const LZ4_TABLE: Grouped<int> := [("pcapng.lz4", [("fpcap (mmap)", Duration(1, Milliseconds))])]

  lemma LZ4TableDrawn()
    ensures Keys(LZ4_TABLE) == ["pcapng.lz4"]
    ensures "pcapng.lz4" in OrderedFormats(LZ4_TABLE)
  {
    assert Keys(LZ4_TABLE) == ["pcapng.lz4"];
    assert Select(Keys(LZ4_TABLE), FORMAT_ORDER, false) == ["pcapng.lz4"];
  }

  lemma LZ4TableNotVisited()
    ensures AllLibrariesAsWritten(LZ4_TABLE) == []
  {
    var g := LZ4_TABLE;
    assert Keys(g) == ["pcapng.lz4"];
    assert LibrariesOf(g, "pcap") == [] && LibrariesOf(g, "pcapng") == [] && LibrariesOf(g, "pcapng.zst(d)") == [];
    VisitedSnoc(g, [], "pcap");
    VisitedSnoc(g, ["pcap"], "pcapng");
    VisitedSnoc(g, ["pcap", "pcapng"], "pcapng.zst(d)");
    assert VisitedLibraries(g, FORMAT_ORDER) == [];
  }

  /**
   * The chart as written drops every result of a format outside
   * FORMAT_ORDER: LZ4_TABLE holds one result for "pcapng.lz4", the group
   * is drawn, but it gets no bar.
   */
  lemma UnknownFormatGetsNoBars()
    ensures "pcapng.lz4" in OrderedFormats(LZ4_TABLE)
    ensures Keys(Get(LZ4_TABLE, "pcapng.lz4")) == ["fpcap (mmap)"]
    ensures FormatLibraries(AllLibrariesAsWritten(LZ4_TABLE), Keys(Get(LZ4_TABLE, "pcapng.lz4"))) == []
  {
    LZ4TableDrawn();
    LZ4TableNotVisited();
    assert Get(LZ4_TABLE, "pcapng.lz4") == [("fpcap (mmap)", Duration(1, Milliseconds))];
  }

  /**
   * `all_libraries` as the comment at run_benchmark.py:190 describes it:
   * every library in the results, walking the formats in the order they
   * are drawn.
   */
  function AllLibraries<T>(g: Grouped<T>): seq<string>
  {
    Dedup(VisitedLibraries(g, OrderedFormats(g)))
  }

  /**
   * With the corrected `all_libraries`, each drawn group gets one bar for
   * every library it holds, each once.
   */
  lemma EveryResultGetsABar<T>(g: Grouped<T>, fmt: string)
    requires WellFormedGrouped(g)
    requires fmt in OrderedFormats(g)
    ensures multiset(FormatLibraries(AllLibraries(g), Keys(Get(g, fmt)))) == multiset(Keys(Get(g, fmt)))
  {
    FormatsArePermutation(g);
    assert fmt in multiset(Keys(g));
    var keys := Keys(Get(g, fmt));
    var libs := FormatLibraries(AllLibraries(g), keys);
    forall lib | lib in keys ensures lib in libs {
      VisitedLibrariesMembers(g, OrderedFormats(g), lib);
      var v := VisitedLibraries(g, OrderedFormats(g));
      var i :| 0 <= i < |v| && v[i] == lib;
    }
    SameElementsPermutation(libs, keys);
  }

  /**
   * Every benchmark registered in this repository lands in a format of
   * FORMAT_ORDER, so on the repository's own results the as-written
   * `all_libraries` misses nothing.
   */
  lemma RegisteredFormatsKnown(i: nat)
    requires i < |REGISTERED|
    ensures FormatAlias(REGISTERED[i].1) in FORMAT_ORDER
  {
    assert forall k :: 0 <= k < |REGISTERED| ==>
      REGISTERED[k].1 in ["pcap", "pcapng", "pcapng.zst", "pcapng.zstd"];
  }

  /**
   * From benchmark records to bars: under the corrected `all_libraries`,
   * each drawn format gets one bar for each library that an accepted
   * benchmark of that format names, each once.
   */
  lemma ParsedResultsAllDrawn<T>(bms: seq<Benchmark<T>>, fmt: string)
    requires Group(bms).Ok?
    requires fmt in Keys(Group(bms).value)
    ensures multiset(FormatLibraries(AllLibraries(Group(bms).value), Keys(Get(Group(bms).value, fmt)))) ==
      multiset(Dedup(LibrariesUnder(bms, fmt)))
  {
    var g := Group(bms).value;
    GroupWellFormed(bms);
    GroupLibraries(bms);
    FormatsArePermutation(g);
    assert fmt in multiset(OrderedFormats(g));
    EveryResultGetsABar(g, fmt);
  }
}
