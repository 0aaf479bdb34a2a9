/**
 * How run_benchmark.py reads a Google Benchmark name such as
 * `fpcap-fread (pcapng)`: the split into library and format, the check that
 * the format part is closed by a parenthesis, and the two fixed tables that
 * rename libraries and merge format spellings.
 */
module BenchmarkNames {
  import opened Wrappers

  /** The separator of `name.split(" (", 1)`. */
  const SEPARATOR: string := " ("

  /** Benchmark library names shown under another name on the chart. */
  const LIBRARY_DISPLAY_NAMES: map<string, string> :=
    map["fpcap" := "fpcap (mmap)", "fpcap-fread" := "fpcap (fread)"]

  /** Both spellings of the zstd-compressed capture are one chart group. */
  const FORMAT_ALIASES: map<string, string> :=
    map["pcapng.zst" := "pcapng.zst(d)", "pcapng.zstd" := "pcapng.zst(d)"]

  /** `sep` occurs in `s` starting at index `i`. */
  predicate OccursAt(s: string, sep: string, i: nat)
  {
    i + |sep| <= |s| && s[i..i + |sep|] == sep
  }

  /** `sep in s`. */
  predicate Contains(s: string, sep: string)
  {
    exists i :: 0 <= i <= |s| && OccursAt(s, sep, i)
  }

  /** `s.endswith(")")`. */
  predicate EndsWithParen(s: string)
  {
    |s| > 0 && s[|s| - 1] == ')'
  }

  /** The leftmost index at or after `from` at which `sep` occurs in `s`. */
  function IndexFrom(s: string, sep: string, from: nat): (r: Option<nat>)
    ensures r.Some? ==> from <= r.value && OccursAt(s, sep, r.value)
    ensures r.Some? ==> forall j :: from <= j < r.value ==> !OccursAt(s, sep, j)
    ensures r.None? ==> forall j :: from <= j <= |s| ==> !OccursAt(s, sep, j)
    decreases |s| - from
  {
    if from + |sep| > |s| then None
    else if OccursAt(s, sep, from) then Some(from)
    else IndexFrom(s, sep, from + 1)
  }

  /** The leftmost index at which `sep` occurs in `s`, where `str.split(sep, 1)` cuts. */
  function IndexOf(s: string, sep: string): (r: Option<nat>)
    ensures r.Some? ==> OccursAt(s, sep, r.value)
    ensures r.Some? ==> forall j :: 0 <= j < r.value ==> !OccursAt(s, sep, j)
    ensures r.None? ==> !Contains(s, sep)
  {
    IndexFrom(s, sep, 0)
  }

  /**
   * The parse at run_benchmark.py:168-175: `Some((library, format))` for an
   * accepted name, `None` for one that is skipped with a warning. A name is
   * accepted exactly when it contains " (" and ends with ")"; it is then
   * library + " (" + format + ")" with no " (" inside the library part, so
   * the cut is at the first separator and the format may hold further ones.
   */
  function ParseName(name: string): (r: Option<(string, string)>)
    ensures r.Some? <==> Contains(name, SEPARATOR) && EndsWithParen(name)
    ensures r.Some? ==> name == r.value.0 + SEPARATOR + r.value.1 + ")"
    ensures r.Some? ==> !Contains(r.value.0, SEPARATOR)
  {
    match IndexOf(name, SEPARATOR)
    case None => None
    case Some(i) =>
      var library := name[..i];
      var tail := name[i + |SEPARATOR|..];
      assert name == library + SEPARATOR + tail;
      if !EndsWithParen(tail) then
        assert !EndsWithParen(name);
        None
      else
        assert name == library + SEPARATOR + tail[..|tail| - 1] + ")";
        assert forall j :: 0 <= j <= |library| && OccursAt(library, SEPARATOR, j) ==>
          OccursAt(name, SEPARATOR, j);
        Some((library, tail[..|tail| - 1]))
  }

  /** No occurrence of " (" can start in the library part and run past it. */
  lemma FirstSeparatorAfter(library: string, rest: string)
    requires !Contains(library, SEPARATOR)
    ensures IndexOf(library + SEPARATOR + rest, SEPARATOR) == Some(|library|)
  {
    var name := library + SEPARATOR + rest;
    assert name[|library|..|library| + 2] == SEPARATOR;
    assert OccursAt(name, SEPARATOR, |library|);
    var r := IndexOf(name, SEPARATOR);
    assert r.Some? && r.value <= |library|;
    forall j | 0 <= j && j + 2 <= |library| && OccursAt(name, SEPARATOR, j)
      ensures OccursAt(library, SEPARATOR, j)
    {
      assert library[j..j + 2] == name[j..j + 2];
    }
    if |library| > 0 {
      var k := |library| - 1;
      assert name[|library|] == SEPARATOR[0] == ' ';
      assert name[k..k + 2][1] == name[|library|];
      assert SEPARATOR[1] == '(';
      assert !OccursAt(name, SEPARATOR, k);
    }
  }

  /**
   * Round trip: every name built as library + " (" + format + ")" from a
   * library without " (" is accepted and gives back exactly that pair.
   */
  lemma ParseNameOfFormatted(library: string, format: string)
    requires !Contains(library, SEPARATOR)
    ensures ParseName(library + SEPARATOR + format + ")") == Some((library, format))
  {
    var name := library + SEPARATOR + format + ")";
    assert name == library + SEPARATOR + (format + ")");
    FirstSeparatorAfter(library, format + ")");
    assert name[..|library|] == library;
    var tail := name[|library| + 2..];
    assert tail == format + ")";
    assert tail[..|tail| - 1] == format;
  }

  /** A text without a space holds no " (". */
  lemma NoSpaceNoSeparator(s: string)
    requires forall i :: 0 <= i < |s| ==> s[i] != ' '
    ensures !Contains(s, SEPARATOR)
  {
    forall i | 0 <= i <= |s| ensures !OccursAt(s, SEPARATOR, i) {
      if i + 2 <= |s| {
        assert s[i..i + 2][0] == s[i];
      }
    }
  }

  /** The split is done once: a format may itself hold " (", and both parts may be empty. */
  lemma SplitOnce()
    ensures ParseName("a (b (c))") == Some(("a", "b (c)"))
    ensures ParseName(" ()") == Some(("", ""))
  {
    NoSpaceNoSeparator("a");
    ParseNameOfFormatted("a", "b (c)");
    assert "a" + SEPARATOR + "b (c)" + ")" == "a (b (c))";
    NoSpaceNoSeparator("");
    ParseNameOfFormatted("", "");
    assert "" + SEPARATOR + "" + ")" == " ()";
  }

  /** Names without " (", or whose tail is not closed by ")", are skipped. */
  lemma Rejected()
    ensures ParseName("fpcap") == None
    ensures ParseName("fpcap (pcap") == None
    ensures ParseName("fpcap (pcap) x") == None
  {
    NoSpaceNoSeparator("fpcap");
  }

  /** `table.get(key, key)`. */
  function Translate(table: map<string, string>, key: string): string
  {
    if key in table then table[key] else key
  }

  /**
   * Library renaming at run_benchmark.py:178: only the two fpcap benchmark
   * names change, and a renamed name is not renamed again.
   */
  function DisplayName(library: string): (r: string)
    ensures r == library <==> library !in LIBRARY_DISPLAY_NAMES
    ensures r !in LIBRARY_DISPLAY_NAMES
    ensures Translate(LIBRARY_DISPLAY_NAMES, r) == r
  {
    Translate(LIBRARY_DISPLAY_NAMES, library)
  }

  /**
   * Format aliasing at run_benchmark.py:181: exactly the two zstd spellings
   * and the merged name itself end up as "pcapng.zst(d)"; every other format
   * is kept, and aliasing twice changes nothing.
   */
  function FormatAlias(format: string): (r: string)
    ensures r == "pcapng.zst(d)" <==>
      format == "pcapng.zst" || format == "pcapng.zstd" || format == "pcapng.zst(d)"
    ensures r != "pcapng.zst(d)" ==> r == format
    ensures Translate(FORMAT_ALIASES, r) == r
  {
    Translate(FORMAT_ALIASES, format)
  }
}
