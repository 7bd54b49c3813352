/**
 * File selection and task construction of the FCI archive downloader.
 *
 * Level-1 products are split into 40 chunk files; only the files of the
 * chunks that cover the requested box are fetched. A chunk file is picked
 * out by a glob pattern ending in the two-digit chunk number. Level-2
 * products are not chunked and every file is fetched. The archive search
 * is the parameter `search`; times are whole seconds.
 */
module ArchiveDownloader {
  import opened Glob
  import opened ChunkLocator

  // ---------------------------------------------------------------------
  // Chunk file name patterns
  // ---------------------------------------------------------------------

  function Digit(d: int): (c: char)
    requires 0 <= d < 10
    ensures '0' <= c <= '9'
    ensures c as int - '0' as int == d
  {
    (48 + d) as char
  }

  /** Value of a string of decimal digits, most significant first. */
  function DecimalValue(s: string): int
  {
    if s == [] then 0
    else DecimalValue(s[..|s| - 1]) * 10 + (s[|s| - 1] as int - '0' as int)
  }

  /** Value of an optionally '-'-signed decimal text. */
  function SignedValue(s: string): int
  {
    if s != [] && s[0] == '-' then -DecimalValue(s[1..]) else DecimalValue(s)
  }

  predicate IsDigits(s: string)
  {
    forall i :: 0 <= i < |s| ==> '0' <= s[i] <= '9'
  }

  /** Decimal digits of a natural number, without leading zeros. */
  function NatToDecimal(n: nat): (s: string)
    ensures 1 <= |s|
    ensures |s| == 1 <==> n < 10
  {
    if n < 10 then [Digit(n)] else NatToDecimal(n / 10) + [Digit(n % 10)]
  }

  /** str() of a natural number spells it: decimal digits whose value is
      the number, with no leading zero, two characters at most exactly
      below 100. */
  lemma {:induction false} NatToDecimalValue(n: nat)
    ensures IsDigits(NatToDecimal(n))
    ensures DecimalValue(NatToDecimal(n)) == n
    ensures NatToDecimal(n)[0] == '0' ==> NatToDecimal(n) == "0"
    ensures |NatToDecimal(n)| <= 2 <==> n < 100
  {
    if n >= 10 {
      NatToDecimalValue(n / 10);
      var s := NatToDecimal(n);
      assert s[..|s| - 1] == NatToDecimal(n / 10);
    }
  }

  /** Python's str() of an integer. */
  function IntToDecimal(n: int): (s: string)
    ensures 1 <= |s|
  {
    if n < 0 then "-" + NatToDecimal(-n) else NatToDecimal(n)
  }

  /** str() of an integer carries a '-' exactly for negative numbers, then
      the digits of the magnitude, with no leading zero unless that text
      is "0"; its signed value is the number. */
  lemma IntToDecimalValue(n: int)
    ensures IntToDecimal(n)[0] == '-' <==> n < 0
    ensures IsDigits(if n < 0 then IntToDecimal(n)[1..] else IntToDecimal(n))
    ensures var d := if n < 0 then IntToDecimal(n)[1..] else IntToDecimal(n);
      d != [] && (d[0] == '0' ==> d == "0")
    ensures SignedValue(IntToDecimal(n)) == n
    ensures |IntToDecimal(n)| <= 2 <==> -9 <= n <= 99
  {
    var s := IntToDecimal(n);
    if n < 0 {
      var d := NatToDecimal(-n);
      NatToDecimalValue(-n);
      assert s == ['-'] + d;
      assert s[1..] == d;
    } else {
      NatToDecimalValue(n);
    }
  }

  lemma IntToDecimalChars(n: int)
    ensures forall i :: 0 <= i < |IntToDecimal(n)| ==> IntToDecimal(n)[i] == '-' || '0' <= IntToDecimal(n)[i] <= '9'
  {
    IntToDecimalValue(n);
    var s := IntToDecimal(n);
    forall i | 0 <= i < |s| ensures s[i] == '-' || '0' <= s[i] <= '9' {
      if n < 0 && i > 0 {
        assert s[i] == s[1..][i - 1];
      }
    }
  }

  /** Python's str.zfill(2). */
  function ZFill2(s: string): (r: string)
    ensures |r| == if |s| >= 2 then |s| else 2
  {
    if |s| >= 2 then s
    else if s != [] && (s[0] == '-' || s[0] == '+') then [s[0], '0']
    else seq(2 - |s|, _ => '0') + s
  }

  /** zfill(2) leaves texts of two or more characters alone and pads
      shorter ones with '0' to two characters, after a leading sign. */
  lemma ZFill2Pads(s: string)
    ensures |s| >= 2 ==> ZFill2(s) == s
    ensures var r, h := ZFill2(s), if s != [] && (s[0] == '-' || s[0] == '+') then 1 else 0;
      && r[..h] == s[..h]
      && r[|r| - (|s| - h)..] == s[h..]
      && forall i :: h <= i < |r| - (|s| - h) ==> r[i] == '0'
  {
  }

  /** Chunk number as it appears in a file name, str(chunk).zfill(2). */
  function ChunkNumberText(chunk: int): (t: string)
    ensures 2 <= |t|
    ensures forall i :: 0 <= i < |t| ==> t[i] == '-' || '0' <= t[i] <= '9'
  {
    IntToDecimalChars(chunk);
    ZFill2(IntToDecimal(chunk))
  }

  /** The text of a chunk spells it: its signed value is the chunk, it
      carries a '-' exactly for negative chunks, and it is two characters
      long exactly for chunks -9 to 99. Outside that range zfill adds
      nothing, so the text is str() of the chunk, without a leading zero. */
  lemma ChunkNumberTextValue(chunk: int)
    ensures ChunkNumberText(chunk)[0] == '-' <==> chunk < 0
    ensures SignedValue(ChunkNumberText(chunk)) == chunk
    ensures |ChunkNumberText(chunk)| == 2 <==> -9 <= chunk <= 99
    ensures !(-9 <= chunk <= 99) ==> ChunkNumberText(chunk) == IntToDecimal(chunk)
    ensures var t := ChunkNumberText(chunk);
      |t| > 2 ==> (if chunk < 0 then t[1] else t[0]) != '0'
  {
    IntToDecimalValue(chunk);
    var s := IntToDecimal(chunk);
    var t := ChunkNumberText(chunk);
    if |s| < 2 {
      assert t == ['0', s[0]];
      assert t[..1] == ['0'] && [s[0]][..0] == [];
      assert DecimalValue(t) == DecimalValue(['0']) * 10 + (s[0] as int - '0' as int);
      assert DecimalValue(s) == s[0] as int - '0' as int;
    }
  }

  /** Between -9 and 99 the text is two characters that determine the
      number: a sign and a digit, or two digits. */
  lemma ChunkNumberTextTwoCharacters(chunk: int)
    requires -9 <= chunk <= 99
    ensures ChunkNumberText(chunk) ==
      if chunk < 0 then ['-', Digit(-chunk)] else [Digit(chunk / 10), Digit(chunk % 10)]
  {
    if chunk >= 10 {
      assert NatToDecimal(chunk / 10) == [Digit(chunk / 10)];
    }
  }

  /** Different chunks never share a text. */
  lemma ChunkNumberTextInjective(c1: int, c2: int)
    requires ChunkNumberText(c1) == ChunkNumberText(c2)
    ensures c1 == c2
  {
    ChunkNumberTextValue(c1);
    ChunkNumberTextValue(c2);
  }

  /** The glob pattern that selects the files of one chunk. */
  function ChunkPattern(chunk: int): string
  {
    "*_????_00" + ChunkNumberText(chunk) + ".nc"
  }

  /** One pattern per chunk, in the order of the chunk list. */
  function ChunkPatterns(chunks: seq<int>): (ps: seq<string>)
    ensures |ps| == |chunks|
  {
    if chunks == [] then []
    else ChunkPatterns(chunks[..|chunks| - 1]) + [ChunkPattern(chunks[|chunks| - 1])]
  }

  lemma {:induction false} ChunkPatternsAt(chunks: seq<int>, i: int)
    requires 0 <= i < |chunks|
    ensures ChunkPatterns(chunks)[i] == ChunkPattern(chunks[i])
    decreases |chunks|
  {
    if i < |chunks| - 1 {
      ChunkPatternsAt(chunks[..|chunks| - 1], i);
    }
  }

  /** Fixed end of the names of one chunk's files. */
  function ChunkTail(chunk: int): string
  {
    "_00" + ChunkNumberText(chunk) + ".nc"
  }

  /** The suffix test a chunk pattern amounts to: an underscore, four
      arbitrary characters, then the chunk's fixed tail at the very end. */
  predicate HasChunkSuffix(name: string, chunk: int)
  {
    var tail := ChunkTail(chunk);
    && |name| >= |tail| + 5
    && name[|name| - |tail| - 5] == '_'
    && name[|name| - |tail|..] == tail
  }

  /** No wildcard anywhere in a chunk tail. */
  predicate Plain(t: string)
  {
    forall i :: 0 <= i < |t| ==> t[i] != '*' && t[i] != '?'
  }

  lemma ChunkTailPlain(chunk: int)
    ensures Plain(ChunkTail(chunk))
  {
    var t := ChunkNumberText(chunk);
    var tail := ChunkTail(chunk);
    forall i | 0 <= i < |tail| ensures tail[i] != '*' && tail[i] != '?' {
      if 3 <= i < 3 + |t| {
        assert tail[i] == t[i - 3];
      }
    }
  }

  lemma ChunkPatternShape(chunk: int)
    ensures ChunkPattern(chunk) == ['*'] + ("_????" + ChunkTail(chunk))
  {
  }

  /** "_????" followed by a plain tail matches, position by position,
      exactly an underscore, four characters and that tail. */
  lemma FixedUnderscoreTail(tail: string, u: string)
    requires Plain(tail)
    ensures StarFree("_????" + tail)
    ensures FixedMatch("_????" + tail, u) <==> |u| == |tail| + 5 && u[0] == '_' && u[5..] == tail
  {
    var q := "_????" + tail;
    assert forall i :: 5 <= i < |q| ==> q[i] == tail[i - 5];
    if FixedMatch(q, u) {
      assert forall i :: 0 <= i < |tail| ==> u[5..][i] == u[i + 5];
    }
    if |u| == |tail| + 5 && u[0] == '_' && u[5..] == tail {
      forall i | 0 <= i < |q| ensures q[i] == '?' || q[i] == u[i] {
        if i >= 5 {
          assert u[i] == u[5..][i - 5];
        }
      }
    }
  }

  /** "*_????" followed by a plain tail matches exactly the names that end
      in an underscore, four characters and that tail. */
  lemma StarUnderscoreTail(tail: string, name: string)
    requires Plain(tail)
    ensures Match(['*'] + ("_????" + tail), name) <==>
      && |name| >= |tail| + 5
      && name[|name| - |tail| - 5] == '_'
      && name[|name| - |tail|..] == tail
  {
    var q := "_????" + tail;
    FixedUnderscoreTail(tail, []);
    MatchStarThenFixed(q, name);
    if |name| >= |q| {
      var u := name[|name| - |q|..];
      FixedUnderscoreTail(tail, u);
      assert u[5..] == name[|name| - |tail|..];
      assert u[0] == name[|name| - |tail| - 5];
    }
  }

  lemma ChunkPatternMatch(name: string, chunk: int)
    ensures Match(ChunkPattern(chunk), name) <==> HasChunkSuffix(name, chunk)
  {
    ChunkPatternShape(chunk);
    ChunkTailPlain(chunk);
    StarUnderscoreTail(ChunkTail(chunk), name);
  }

  /** Names of two different chunks between -9 and 99 never match the same
      name: every such chunk tail has the same length. */
  lemma ChunkSuffixesExclusive(name: string, c1: int, c2: int)
    requires -9 <= c1 <= 99 && -9 <= c2 <= 99
    requires HasChunkSuffix(name, c1) && HasChunkSuffix(name, c2)
    ensures c1 == c2
  {
    ChunkNumberTextTwoCharacters(c1);
    ChunkNumberTextTwoCharacters(c2);
    var t1, t2 := ChunkTail(c1), ChunkTail(c2);
    assert |t1| == |t2| == 8;
    assert t1 == t2;
    assert ChunkNumberText(c1) == t1[3..5] == t2[3..5] == ChunkNumberText(c2);
    ChunkNumberTextInjective(c1, c2);
  }

  /** A chunk body file name, <anything>_<four characters>_00<chunk>.nc,
      is selected by its own chunk's pattern and by no other. */
  lemma ChunkFileNameSelectsOwnChunk(prefix: string, cycle: string, chunk: int, c: int)
    requires |cycle| == 4
    requires -9 <= chunk <= 99 && -9 <= c <= 99
    ensures FnMatch(prefix + "_" + cycle + "_00" + ChunkNumberText(chunk) + ".nc", ChunkPattern(c)) <==> c == chunk
  {
    var name := prefix + "_" + cycle + "_00" + ChunkNumberText(chunk) + ".nc";
    var tail := ChunkTail(chunk);
    assert name == (prefix + "_" + cycle) + tail;
    assert name[|name| - |tail|..] == tail;
    assert name[|name| - |tail| - 5] == '_';
    assert HasChunkSuffix(name, chunk);
    ChunkPatternMatch(name, c);
    if HasChunkSuffix(name, c) {
      ChunkSuffixesExclusive(name, c, chunk);
    }
  }

  // ---------------------------------------------------------------------
  // get_coverage and filter_chunks
  // ---------------------------------------------------------------------

  // The selections below are stated for any name test `matches`, called as
  // matches(name, pattern); the downloader uses FnMatch.

  /** The files that `pattern` accepts, in their order. */
  function Matching(matches: (string, string) -> bool, pattern: string, files: seq<string>): seq<string>
  {
    if files == [] then []
    else
      var last := files[|files| - 1];
      Matching(matches, pattern, files[..|files| - 1]) + (if matches(last, pattern) then [last] else [])
  }

  /** The files accepted by the first pattern, then those accepted by the
      second, and so on. */
  function Coverage(matches: (string, string) -> bool, patterns: seq<string>, files: seq<string>): seq<string>
  {
    if patterns == [] then []
    else Coverage(matches, patterns[..|patterns| - 1], files) + Matching(matches, patterns[|patterns| - 1], files)
  }

  /** One copy of `e` for every pattern that accepts it. */
  function Copies(matches: (string, string) -> bool, patterns: seq<string>, e: string): seq<string>
  {
    if patterns == [] then []
    else Copies(matches, patterns[..|patterns| - 1], e) + (if matches(e, patterns[|patterns| - 1]) then [e] else [])
  }

  /** For each entry in turn, one copy of it per pattern that accepts it. */
  function Filtered(matches: (string, string) -> bool, patterns: seq<string>, entries: seq<string>): seq<string>
  {
    if entries == [] then []
    else Filtered(matches, patterns, entries[..|entries| - 1]) + Copies(matches, patterns, entries[|entries| - 1])
  }

  /** Some pattern of the list accepts the name. */
  predicate MatchesAny(matches: (string, string) -> bool, patterns: seq<string>, name: string)
  {
    exists i :: 0 <= i < |patterns| && matches(name, patterns[i])
  }

  lemma MatchingStep(matches: (string, string) -> bool, pattern: string, files: seq<string>, j: int)
    requires 0 <= j < |files|
    ensures Matching(matches, pattern, files[..j + 1]) ==
            Matching(matches, pattern, files[..j]) + (if matches(files[j], pattern) then [files[j]] else [])
  {
    assert files[..j + 1][..j] == files[..j];
  }

  lemma MatchingOne(matches: (string, string) -> bool, pattern: string, e: string)
    ensures Matching(matches, pattern, [e]) == if matches(e, pattern) then [e] else []
  {
    assert [e][..0] == [];
  }

  lemma CoverageStep(matches: (string, string) -> bool, patterns: seq<string>, files: seq<string>, j: int)
    requires 0 <= j < |patterns|
    ensures Coverage(matches, patterns[..j + 1], files) ==
            Coverage(matches, patterns[..j], files) + Matching(matches, patterns[j], files)
  {
    assert patterns[..j + 1][..j] == patterns[..j];
  }

  lemma CopiesStep(matches: (string, string) -> bool, patterns: seq<string>, e: string, j: int)
    requires 0 <= j < |patterns|
    ensures Copies(matches, patterns[..j + 1], e) ==
            Copies(matches, patterns[..j], e) + (if matches(e, patterns[j]) then [e] else [])
  {
    assert patterns[..j + 1][..j] == patterns[..j];
  }

  lemma FilteredStep(matches: (string, string) -> bool, patterns: seq<string>, entries: seq<string>, i: int)
    requires 0 <= i < |entries|
    ensures Filtered(matches, patterns, entries[..i + 1]) ==
            Filtered(matches, patterns, entries[..i]) + Copies(matches, patterns, entries[i])
  {
    assert entries[..i + 1][..i] == entries[..i];
  }

  lemma {:induction false} MatchingMembership(matches: (string, string) -> bool, pattern: string, files: seq<string>, x: string)
    ensures x in Matching(matches, pattern, files) <==> x in files && matches(x, pattern)
    decreases |files|
  {
    if files != [] {
      var init, last := files[..|files| - 1], files[|files| - 1];
      assert files == init + [last];
      MatchingMembership(matches, pattern, init, x);
    }
  }

  lemma MatchesAnyLast(matches: (string, string) -> bool, patterns: seq<string>, x: string)
    requires patterns != []
    ensures MatchesAny(matches, patterns, x) <==>
            MatchesAny(matches, patterns[..|patterns| - 1], x) || matches(x, patterns[|patterns| - 1])
  {
    var init := patterns[..|patterns| - 1];
    if MatchesAny(matches, patterns, x) {
      var i :| 0 <= i < |patterns| && matches(x, patterns[i]);
      if i < |init| {
        assert init[i] == patterns[i];
      }
    }
    if MatchesAny(matches, init, x) {
      var i :| 0 <= i < |init| && matches(x, init[i]);
      assert patterns[i] == init[i];
    }
  }

  /** get_coverage keeps a file exactly when some pattern accepts it. */
  lemma {:induction false} CoverageMembership(matches: (string, string) -> bool, patterns: seq<string>, files: seq<string>, x: string)
    ensures x in Coverage(matches, patterns, files) <==> x in files && MatchesAny(matches, patterns, x)
    decreases |patterns|
  {
    if patterns != [] {
      var init, last := patterns[..|patterns| - 1], patterns[|patterns| - 1];
      CoverageMembership(matches, init, files, x);
      MatchingMembership(matches, last, files, x);
      MatchesAnyLast(matches, patterns, x);
    }
  }

  /** filter_chunks keeps an entry exactly when some pattern accepts it. */
  lemma {:induction false} FilteredMembership(matches: (string, string) -> bool, patterns: seq<string>, entries: seq<string>, x: string)
    ensures x in Filtered(matches, patterns, entries) <==> x in entries && MatchesAny(matches, patterns, x)
    decreases |entries|
  {
    if entries != [] {
      var init, last := entries[..|entries| - 1], entries[|entries| - 1];
      assert entries == init + [last];
      FilteredMembership(matches, patterns, init, x);
      CopiesMembership(matches, patterns, last, x);
    }
  }

  lemma {:induction false} CopiesMembership(matches: (string, string) -> bool, patterns: seq<string>, e: string, x: string)
    ensures x in Copies(matches, patterns, e) <==> x == e && MatchesAny(matches, patterns, e)
    decreases |patterns|
  {
    if patterns != [] {
      CopiesMembership(matches, patterns[..|patterns| - 1], e, x);
      MatchesAnyLast(matches, patterns, e);
    }
  }

  /** Collects, pattern by pattern, the file names that match it. */
  method GetCoverage(coverage: seq<string>, filenames: seq<string>) returns (chunks: seq<string>)
    ensures chunks == Coverage(FnMatch, coverage, filenames)
  {
    chunks := [];
    for i := 0 to |coverage|
      invariant chunks == Coverage(FnMatch, coverage[..i], filenames)
    {
      var pattern := coverage[i];
      for j := 0 to |filenames|
        invariant chunks == Coverage(FnMatch, coverage[..i], filenames) + Matching(FnMatch, pattern, filenames[..j])
      {
        MatchingStep(FnMatch, pattern, filenames, j);
        if FnMatch(filenames[j], pattern) {
          chunks := chunks + [filenames[j]];
        }
      }
      CoverageStep(FnMatch, coverage, filenames, i);
      assert filenames[..|filenames|] == filenames;
    }
    assert coverage[..|coverage|] == coverage;
  }

  /** Keeps the entries that match the pattern of some chunk of the list. */
  method FilterChunks(chunksList: seq<int>, entries: seq<string>) returns (filteredEntries: seq<string>)
    ensures filteredEntries == Filtered(FnMatch, ChunkPatterns(chunksList), entries)
  {
    var chunkPatterns := ChunkPatterns(chunksList);
    filteredEntries := KeepMatching(FnMatch, chunkPatterns, entries);
  }

  /** The loops of filter_chunks: entry by entry, one copy of the entry for
      every pattern that accepts it. */
  method KeepMatching(matches: (string, string) -> bool, chunkPatterns: seq<string>, entries: seq<string>)
    returns (filteredEntries: seq<string>)
    ensures filteredEntries == Filtered(matches, chunkPatterns, entries)
  {
    filteredEntries := [];
    for i := 0 to |entries|
      invariant filteredEntries == Filtered(matches, chunkPatterns, entries[..i])
    {
      var entry := entries[i];
      for j := 0 to |chunkPatterns|
        invariant filteredEntries == Filtered(matches, chunkPatterns, entries[..i]) + Copies(matches, chunkPatterns[..j], entry)
      {
        CopiesStep(matches, chunkPatterns, entry, j);
        if matches(entry, chunkPatterns[j]) {
          filteredEntries := filteredEntries + [entry];
        }
      }
      FilteredStep(matches, chunkPatterns, entries, i);
      assert chunkPatterns[..|chunkPatterns|] == chunkPatterns;
    }
    assert entries[..|entries|] == entries;
  }

  /** Some chunk pattern accepts a name exactly when the name ends like a
      file of one of the chunks. */
  lemma ChunkPatternsAccept(chunks: seq<int>, x: string)
    ensures MatchesAny(FnMatch, ChunkPatterns(chunks), x) <==> exists c :: c in chunks && HasChunkSuffix(x, c)
  {
    var ps := ChunkPatterns(chunks);
    if exists c :: c in chunks && HasChunkSuffix(x, c) {
      var c :| c in chunks && HasChunkSuffix(x, c);
      var i :| 0 <= i < |chunks| && chunks[i] == c;
      ChunkPatternsAt(chunks, i);
      ChunkPatternMatch(x, c);
      assert FnMatch(x, ps[i]);
    }
    if MatchesAny(FnMatch, ps, x) {
      var i :| 0 <= i < |ps| && FnMatch(x, ps[i]);
      ChunkPatternsAt(chunks, i);
      ChunkPatternMatch(x, chunks[i]);
    }
  }

  /** An entry is kept exactly when it ends like a file of one of the
      listed chunks. */
  lemma FilterChunksMembership(chunks: seq<int>, entries: seq<string>, x: string)
    ensures x in Filtered(FnMatch, ChunkPatterns(chunks), entries) <==>
            x in entries && exists c :: c in chunks && HasChunkSuffix(x, c)
  {
    FilteredMembership(FnMatch, ChunkPatterns(chunks), entries, x);
    ChunkPatternsAccept(chunks, x);
  }

  /** No chunks, or no entry of any listed chunk, leaves nothing. */
  lemma FilterChunksEmpty(chunks: seq<int>, entries: seq<string>)
    requires forall e, c :: e in entries && c in chunks ==> !HasChunkSuffix(e, c)
    ensures Filtered(FnMatch, ChunkPatterns(chunks), entries) == []
  {
    var r := Filtered(FnMatch, ChunkPatterns(chunks), entries);
    if r != [] {
      FilterChunksMembership(chunks, entries, r[0]);
      assert false;
    }
  }

  /** Reference selection: the entries of some listed chunk, each once, in
      their input order. */
  function ChunkSelected(chunks: seq<int>, entries: seq<string>): seq<string>
  {
    if entries == [] then []
    else
      var init, last := entries[..|entries| - 1], entries[|entries| - 1];
      ChunkSelected(chunks, init) + (if exists c :: c in chunks && HasChunkSuffix(last, c) then [last] else [])
  }

  predicate NoDuplicates(s: seq<int>)
  {
    forall i, j :: 0 <= i < j < |s| ==> s[i] != s[j]
  }

  /** When no pattern other than the k-th accepts `e`, it is copied once
      if the k-th does and not at all otherwise. */
  lemma {:induction false} CopiesOnlyAt(matches: (string, string) -> bool, patterns: seq<string>, e: string, k: int)
    requires forall i :: 0 <= i < |patterns| && matches(e, patterns[i]) ==> i == k
    ensures Copies(matches, patterns, e) == if 0 <= k < |patterns| && matches(e, patterns[k]) then [e] else []
    decreases |patterns|
  {
    if patterns != [] {
      var init := patterns[..|patterns| - 1];
      assert forall i :: 0 <= i < |init| ==> init[i] == patterns[i];
      CopiesOnlyAt(matches, init, e, k);
    }
  }

  /** Only the pattern of the chunk that a name ends with accepts it, when
      the chunks are distinct and between -9 and 99. */
  lemma ChunkPatternOnlyAt(chunks: seq<int>, e: string, k: int)
    requires NoDuplicates(chunks)
    requires forall j :: 0 <= j < |chunks| ==> -9 <= chunks[j] <= 99
    requires 0 <= k < |chunks| && HasChunkSuffix(e, chunks[k])
    ensures forall i :: 0 <= i < |chunks| && FnMatch(e, ChunkPatterns(chunks)[i]) ==> i == k
  {
    forall i | 0 <= i < |chunks| && FnMatch(e, ChunkPatterns(chunks)[i]) ensures i == k {
      ChunkPatternAt(chunks, e, i);
      ChunkSuffixesExclusive(e, chunks[i], chunks[k]);
    }
  }

  /** The i-th chunk pattern accepts a name exactly when the name ends like
      a file of the i-th chunk. */
  lemma ChunkPatternAt(chunks: seq<int>, e: string, i: int)
    requires 0 <= i < |chunks|
    ensures FnMatch(e, ChunkPatterns(chunks)[i]) <==> HasChunkSuffix(e, chunks[i])
  {
    ChunkPatternsAt(chunks, i);
    ChunkPatternMatch(e, chunks[i]);
  }

  /** With distinct chunk numbers between -9 and 99, an entry matches one
      chunk pattern when it ends like a file of a listed chunk, none
      otherwise. */
  lemma ChunkCopies(chunks: seq<int>, e: string)
    requires NoDuplicates(chunks)
    requires forall j :: 0 <= j < |chunks| ==> -9 <= chunks[j] <= 99
    ensures Copies(FnMatch, ChunkPatterns(chunks), e) ==
            if exists c :: c in chunks && HasChunkSuffix(e, c) then [e] else []
  {
    var ps := ChunkPatterns(chunks);
    if exists c :: c in chunks && HasChunkSuffix(e, c) {
      var c :| c in chunks && HasChunkSuffix(e, c);
      var k :| 0 <= k < |chunks| && chunks[k] == c;
      ChunkPatternOnlyAt(chunks, e, k);
      ChunkPatternAt(chunks, e, k);
      CopiesOnlyAt(FnMatch, ps, e, k);
    } else {
      ChunkPatternsAccept(chunks, e);
      CopiesOnlyAt(FnMatch, ps, e, -1);
    }
  }

  /** With distinct chunk numbers between -9 and 99 (the locator yields
      -1 to 40) the filter keeps its input order and keeps each entry at
      most once. */
  lemma {:induction false} FilterChunksKeepsOrder(chunks: seq<int>, entries: seq<string>)
    requires NoDuplicates(chunks)
    requires forall j :: 0 <= j < |chunks| ==> -9 <= chunks[j] <= 99
    ensures Filtered(FnMatch, ChunkPatterns(chunks), entries) == ChunkSelected(chunks, entries)
    decreases |entries|
  {
    if entries != [] {
      var last := entries[|entries| - 1];
      FilterChunksKeepsOrder(chunks, entries[..|entries| - 1]);
      ChunkCopies(chunks, last);
    }
  }

  /** For any box the Level-1 selection keeps each entry at most once and
      in entry order: the chunk list has no repeats and stays within -1..40. */
  lemma Level1SelectionKeepsOrder(bbox: Option<BBox>, rowOf: (real, real) -> int, entries: seq<string>)
    ensures Filtered(FnMatch, ChunkPatterns(BBoxChunks(bbox, rowOf)), entries) == ChunkSelected(BBoxChunks(bbox, rowOf), entries)
  {
    BBoxChunksAscending(bbox, rowOf);
    FilterChunksKeepsOrder(BBoxChunks(bbox, rowOf), entries);
  }

  lemma {:induction false} MatchingMultiplicity(matches: (string, string) -> bool, pattern: string, files: seq<string>, x: string)
    ensures multiset(Matching(matches, pattern, files))[x] == if matches(x, pattern) then multiset(files)[x] else 0
    decreases |files|
  {
    if files != [] {
      var init, last := files[..|files| - 1], files[|files| - 1];
      assert files == init + [last];
      MatchingMultiplicity(matches, pattern, init, x);
    }
  }

  lemma MultiplyNext(m: int, k: int)
    ensures m * (k + 1) == m * k + m
  {
  }

  /** get_coverage lists a file once for every pattern that accepts it
      (times the number of times the file is listed). */
  lemma {:induction false} CoverageMultiplicity(matches: (string, string) -> bool, patterns: seq<string>, files: seq<string>, x: string)
    ensures multiset(Coverage(matches, patterns, files))[x] == multiset(files)[x] * |Copies(matches, patterns, x)|
    decreases |patterns|
  {
    if patterns != [] {
      var init, last := patterns[..|patterns| - 1], patterns[|patterns| - 1];
      CoverageMultiplicity(matches, init, files, x);
      MatchingMultiplicity(matches, last, files, x);
      var m := multiset(files)[x];
      var k := |Copies(matches, init, x)|;
      assert multiset(Coverage(matches, patterns, files)) ==
             multiset(Coverage(matches, init, files)) + multiset(Matching(matches, last, files));
      if matches(x, last) {
        MultiplyNext(m, k);
      }
    }
  }

  /** get_coverage groups its result by pattern: the coverage of two
      pattern lists one after the other is the first coverage followed by
      the second. */
  lemma {:induction false} CoverageAppendPatterns(matches: (string, string) -> bool, ps1: seq<string>, ps2: seq<string>, files: seq<string>)
    ensures Coverage(matches, ps1 + ps2, files) == Coverage(matches, ps1, files) + Coverage(matches, ps2, files)
    decreases |ps2|
  {
    if ps2 == [] {
      assert ps1 + ps2 == ps1;
    } else {
      var ps := ps1 + ps2;
      var init, last := ps2[..|ps2| - 1], ps2[|ps2| - 1];
      assert ps[..|ps| - 1] == ps1 + init;
      assert ps[|ps| - 1] == last;
      var lastFiles := Matching(matches, last, files);
      calc {
        Coverage(matches, ps, files);
        Coverage(matches, ps1 + init, files) + lastFiles;
        { CoverageAppendPatterns(matches, ps1, init, files); }
        (Coverage(matches, ps1, files) + Coverage(matches, init, files)) + lastFiles;
        Coverage(matches, ps1, files) + (Coverage(matches, init, files) + lastFiles);
        Coverage(matches, ps1, files) + Coverage(matches, ps2, files);
      }
    }
  }

  /** Splitting the file list splits each pattern's selection. */
  lemma {:induction false} MatchingAppend(matches: (string, string) -> bool, pattern: string, f1: seq<string>, f2: seq<string>)
    ensures Matching(matches, pattern, f1 + f2) == Matching(matches, pattern, f1) + Matching(matches, pattern, f2)
    decreases |f2|
  {
    if f2 == [] {
      assert f1 + f2 == f1;
    } else {
      var init, last := f2[..|f2| - 1], f2[|f2| - 1];
      assert (f1 + f2)[..|f1 + f2| - 1] == f1 + init;
      assert (f1 + f2)[|f1 + f2| - 1] == last;
      MatchingAppend(matches, pattern, f1, init);
    }
  }

  /** Splitting the file list splits the coverage, up to order. */
  lemma {:induction false} CoverageAppendFiles(matches: (string, string) -> bool, patterns: seq<string>, f1: seq<string>, f2: seq<string>)
    ensures multiset(Coverage(matches, patterns, f1 + f2)) ==
            multiset(Coverage(matches, patterns, f1)) + multiset(Coverage(matches, patterns, f2))
    decreases |patterns|
  {
    if patterns != [] {
      var init, last := patterns[..|patterns| - 1], patterns[|patterns| - 1];
      CoverageAppendFiles(matches, init, f1, f2);
      MatchingAppend(matches, last, f1, f2);
    }
  }

  /** filter_chunks and get_coverage select the same files the same number
      of times; they differ only in order (entry-major against
      pattern-major). */
  lemma {:induction false} FilteredIsCoverageReordered(matches: (string, string) -> bool, patterns: seq<string>, entries: seq<string>)
    ensures multiset(Filtered(matches, patterns, entries)) == multiset(Coverage(matches, patterns, entries))
    decreases |entries|
  {
    if entries == [] {
      CoverageOfNothing(matches, patterns);
    } else {
      var init, last := entries[..|entries| - 1], entries[|entries| - 1];
      assert entries == init + [last];
      FilteredIsCoverageReordered(matches, patterns, init);
      CoverageAppendFiles(matches, patterns, init, [last]);
      CopiesIsCoverageOfOne(matches, patterns, last);
    }
  }

  /** The copies of one entry are what get_coverage selects from the
      one-entry list. */
  lemma {:induction false} CopiesIsCoverageOfOne(matches: (string, string) -> bool, patterns: seq<string>, e: string)
    ensures Copies(matches, patterns, e) == Coverage(matches, patterns, [e])
    decreases |patterns|
  {
    if patterns != [] {
      CopiesIsCoverageOfOne(matches, patterns[..|patterns| - 1], e);
      MatchingOne(matches, patterns[|patterns| - 1], e);
    }
  }

  lemma {:induction false} CoverageOfNothing(matches: (string, string) -> bool, patterns: seq<string>)
    ensures Coverage(matches, patterns, []) == []
    decreases |patterns|
  {
    if patterns != [] {
      CoverageOfNothing(matches, patterns[..|patterns| - 1]);
    }
  }

  // ---------------------------------------------------------------------
  // Download tasks
  // ---------------------------------------------------------------------

  /** An archive product: its identity and the names of its file entries. */
  datatype Product = Product(id: string, entries: seq<string>)

  /** One file to fetch: the product, the entry name and the destination folder. */
  datatype DownloadTask = DownloadTask(product: Product, file: string, outputFolder: string)

  /** Files of a product that get a task: every entry when there is no
      chunk list (Level 2), the chunk-filtered entries otherwise (Level 1). */
  function SelectedFiles(p: Product, chunks: Option<seq<int>>): seq<string>
  {
    match chunks
    case None => p.entries
    case Some(cs) => Filtered(FnMatch, ChunkPatterns(cs), p.entries)
  }

  /** SelectedFiles for a fixed chunk list, as a function of the product. */
  function Selection(chunks: Option<seq<int>>): Product -> seq<string>
  {
    p => SelectedFiles(p, chunks)
  }

  function ProductTasks(p: Product, files: seq<string>, folder: string): (ts: seq<DownloadTask>)
    ensures |ts| == |files|
    ensures forall i :: 0 <= i < |files| ==> ts[i] == DownloadTask(p, files[i], folder)
  {
    seq(|files|, i requires 0 <= i < |files| => DownloadTask(p, files[i], folder))
  }

  /** Tasks in construction order: product by product, and for each product
      one task per selected file, in the order of the selection. */
  function Tasks(products: seq<Product>, select: Product -> seq<string>, folder: string): seq<DownloadTask>
  {
    if products == [] then []
    else
      var last := products[|products| - 1];
      Tasks(products[..|products| - 1], select, folder) + ProductTasks(last, select(last), folder)
  }

  lemma ProductTasksStep(p: Product, files: seq<string>, folder: string, j: int)
    requires 0 <= j < |files|
    ensures ProductTasks(p, files[..j + 1], folder) == ProductTasks(p, files[..j], folder) + [DownloadTask(p, files[j], folder)]
  {
  }

  lemma TasksStep(products: seq<Product>, select: Product -> seq<string>, folder: string, i: int)
    requires 0 <= i < |products|
    ensures Tasks(products[..i + 1], select, folder) ==
            Tasks(products[..i], select, folder) + ProductTasks(products[i], select(products[i]), folder)
  {
    assert products[..i + 1][..i] == products[..i];
  }

  /** The task list of consecutive product lists is the concatenation of
      their task lists: all tasks of one product precede those of the next. */
  lemma {:induction false} TasksAppend(ps1: seq<Product>, ps2: seq<Product>, select: Product -> seq<string>, folder: string)
    ensures Tasks(ps1 + ps2, select, folder) == Tasks(ps1, select, folder) + Tasks(ps2, select, folder)
    decreases |ps2|
  {
    if ps2 == [] {
      assert ps1 + ps2 == ps1;
    } else {
      var ps := ps1 + ps2;
      var init, last := ps2[..|ps2| - 1], ps2[|ps2| - 1];
      assert ps[..|ps| - 1] == ps1 + init;
      assert ps[|ps| - 1] == last;
      var lastTasks := ProductTasks(last, select(last), folder);
      calc {
        Tasks(ps, select, folder);
        Tasks(ps1 + init, select, folder) + lastTasks;
        { TasksAppend(ps1, init, select, folder); }
        (Tasks(ps1, select, folder) + Tasks(init, select, folder)) + lastTasks;
        Tasks(ps1, select, folder) + (Tasks(init, select, folder) + lastTasks);
        Tasks(ps1, select, folder) + Tasks(ps2, select, folder);
      }
    }
  }

  /** A single product's tasks are its selected files in selection order. */
  lemma SingleProductTasks(p: Product, select: Product -> seq<string>, folder: string)
    ensures Tasks([p], select, folder) == ProductTasks(p, select(p), folder)
  {
    assert [p][..0] == [];
  }

  lemma {:induction false} TasksMembership(products: seq<Product>, select: Product -> seq<string>, folder: string, t: DownloadTask)
    ensures t in Tasks(products, select, folder) <==>
            t.product in products && t.file in select(t.product) && t.outputFolder == folder
    decreases |products|
  {
    if products != [] {
      var init, last := products[..|products| - 1], products[|products| - 1];
      assert products == init + [last];
      TasksMembership(init, select, folder, t);
      var ts := ProductTasks(last, select(last), folder);
      if t.product == last && t.file in select(last) && t.outputFolder == folder {
        var i :| 0 <= i < |select(last)| && select(last)[i] == t.file;
        assert ts[i] == t;
      }
    }
  }

  /** Level 2: a task for every entry of every product, and only those. */
  lemma Level2TasksAreAllEntries(products: seq<Product>, folder: string, t: DownloadTask)
    ensures t in Tasks(products, Selection(None), folder) <==>
            t.product in products && t.file in t.product.entries && t.outputFolder == folder
  {
    TasksMembership(products, Selection(None), folder, t);
  }

  function EntryCount(products: seq<Product>): nat
  {
    if products == [] then 0
    else EntryCount(products[..|products| - 1]) + |products[|products| - 1].entries|
  }

  /** Level 2: no entry is dropped, duplicates included. */
  lemma {:induction false} Level2TaskCount(products: seq<Product>, folder: string)
    ensures |Tasks(products, Selection(None), folder)| == EntryCount(products)
    decreases |products|
  {
    if products != [] {
      Level2TaskCount(products[..|products| - 1], folder);
    }
  }

  /** Level 1: a task exactly for the entries of the products that end like
      a file of one of the chunks. */
  lemma Level1TasksAreChunkEntries(products: seq<Product>, chunks: seq<int>, folder: string, t: DownloadTask)
    ensures t in Tasks(products, Selection(Some(chunks)), folder) <==>
            && t.product in products && t.file in t.product.entries && t.outputFolder == folder
            && exists c :: c in chunks && HasChunkSuffix(t.file, c)
  {
    TasksMembership(products, Selection(Some(chunks)), folder, t);
    FilterChunksMembership(chunks, t.product.entries, t.file);
  }

  /** The elements of `s` from last to first. */
  function Reverse<T>(s: seq<T>): (r: seq<T>)
    ensures |r| == |s|
    ensures forall i :: 0 <= i < |s| ==> r[i] == s[|s| - 1 - i]
  {
    if s == [] then [] else Reverse(s[1..]) + [s[0]]
  }

  /** `'L2' in product_type`: the product type names a Level-2 product. */
  function IsLevel2(productType: string): (r: bool)
    ensures r <==> exists i :: 0 <= i < |productType| - 1 && productType[i] == 'L' && productType[i + 1] == '2'
  {
    if |productType| < 2 then false
    else
      assert forall i :: 1 <= i < |productType| ==> productType[i] == productType[1..][i - 1];
      (productType[0] == 'L' && productType[1] == '2') || IsLevel2(productType[1..])
  }

  /** posixpath.join of two path components: an absolute second component
      replaces the first; otherwise the first is kept in front and a '/'
      is put between them exactly when the first is non-empty and does not
      already end in '/'. */
  function JoinPath(a: string, b: string): (r: string)
    ensures |r| >= |b| && r[|r| - |b|..] == b
    ensures |b| > 0 && b[0] == '/' ==> r == b
    ensures !(|b| > 0 && b[0] == '/') ==>
      && |r| >= |a| + |b| && r[..|a|] == a
      && r[|a|..|r| - |b|] == (if a != [] && a[|a| - 1] != '/' then "/" else "")
  {
    if |b| > 0 && b[0] == '/' then b
    else if a == [] || a[|a| - 1] == '/' then a + b
    else a + "/" + b
  }

  /** Destination folder of a run: <output folder>/<run name>/fci_l1c_input_data. */
  function InputDataFolder(outputFolder: string, runName: string): string
  {
    JoinPath(JoinPath(outputFolder, runName), "fci_l1c_input_data")
  }

  /** The destination lies inside the run's folder: it is that folder, a
      separator when the folder does not end in one, and the fixed name. */
  lemma InputDataFolderInsideRunFolder(outputFolder: string, runName: string)
    ensures var run, f := JoinPath(outputFolder, runName), InputDataFolder(outputFolder, runName);
      && |f| > |run| && f[..|run|] == run
      && f[|f| - 18..] == "fci_l1c_input_data"
      && (run == [] || run[|run| - 1] == '/' || f[|run|] == '/')
      && |f| == |run| + 18 + (if run != [] && run[|run| - 1] != '/' then 1 else 0)
  {
    var run, f := JoinPath(outputFolder, runName), InputDataFolder(outputFolder, runName);
    if run != [] && run[|run| - 1] != '/' {
      assert f[|run|..|f| - 18] == "/";
    }
  }

  /** What a run does after the search: stop, or dispatch the tasks in the
      order given. */
  datatype Outcome = NoProducts | Dispatched(tasks: seq<DownloadTask>)

  /** The time window actually searched and the outcome. */
  datatype Run = Run(windowStart: int, windowEnd: int, outcome: Outcome)

  /** One download run: narrow the window for Level 2, search, stop when
      nothing is found, otherwise build the tasks (all entries for Level 2,
      chunk-filtered entries for Level 1) and dispatch them in the reverse
      of the order they were built. */
  method MainDownloadFciFromArchive(
    startTime: int, endTime: int, productType: string,
    search: (int, int) -> seq<Product>,
    lonlatBBox: Option<BBox>, rowOf: (real, real) -> int,
    outputFolder: string, runName: string)
    returns (run: Run)
    ensures IsLevel2(productType) ==> run.windowStart == startTime + 1 && run.windowEnd == endTime - 1
    ensures !IsLevel2(productType) ==> run.windowStart == startTime && run.windowEnd == endTime
    ensures run.outcome == NoProducts <==> search(run.windowStart, run.windowEnd) == []
    ensures run.outcome.Dispatched? ==>
      run.outcome.tasks == Reverse(Tasks(search(run.windowStart, run.windowEnd),
                                         Selection(if IsLevel2(productType) then None else Some(BBoxChunks(lonlatBBox, rowOf))),
                                         InputDataFolder(outputFolder, runName)))
  {
    var isL2 := IsLevel2(productType);
    var start, end := startTime, endTime;
    if isL2 {
      start := start + 1;
      end := end - 1;
    }
    var products := search(start, end);
    if |products| == 0 {
      return Run(start, end, NoProducts);
    }
    var folder := InputDataFolder(outputFolder, runName);
    var downloadTasks: seq<DownloadTask>;
    if !isL2 {
      var chunksList := ChunksForBBox(lonlatBBox, rowOf);
      downloadTasks := Level1Tasks(products, chunksList, folder);
    } else {
      downloadTasks := Level2Tasks(products, folder);
    }
    run := Run(start, end, Dispatched(Reverse(downloadTasks)));
  }

  /** Level-1 task loop: for each product, a task per chunk-filtered entry. */
  method Level1Tasks(products: seq<Product>, chunksList: seq<int>, folder: string) returns (downloadTasks: seq<DownloadTask>)
    ensures downloadTasks == Tasks(products, Selection(Some(chunksList)), folder)
  {
    downloadTasks := [];
    for i := 0 to |products|
      invariant downloadTasks == Tasks(products[..i], Selection(Some(chunksList)), folder)
    {
      var product := products[i];
      var files := FilterChunks(chunksList, product.entries);
      for j := 0 to |files|
        invariant downloadTasks == Tasks(products[..i], Selection(Some(chunksList)), folder) + ProductTasks(product, files[..j], folder)
      {
        ProductTasksStep(product, files, folder, j);
        downloadTasks := downloadTasks + [DownloadTask(product, files[j], folder)];
      }
      TasksStep(products, Selection(Some(chunksList)), folder, i);
      assert files[..|files|] == files;
    }
    assert products[..|products|] == products;
  }

  /** Level-2 task loop: for each product, a task per entry. */
  method Level2Tasks(products: seq<Product>, folder: string) returns (downloadTasks: seq<DownloadTask>)
    ensures downloadTasks == Tasks(products, Selection(None), folder)
  {
    downloadTasks := [];
    for i := 0 to |products|
      invariant downloadTasks == Tasks(products[..i], Selection(None), folder)
    {
      var product := products[i];
      for j := 0 to |product.entries|
        invariant downloadTasks == Tasks(products[..i], Selection(None), folder) + ProductTasks(product, product.entries[..j], folder)
      {
        ProductTasksStep(product, product.entries, folder, j);
        downloadTasks := downloadTasks + [DownloadTask(product, product.entries[j], folder)];
      }
      TasksStep(products, Selection(None), folder, i);
      assert product.entries[..|product.entries|] == product.entries;
    }
    assert products[..|products|] == products;
  }
}
