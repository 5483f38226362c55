/**
 * Parsers for Linux /proc text: /proc/self/statm (seven page counts) and
 * /proc/self/smaps (blocks of `key: value` lines under mapping headers),
 * with the string helpers they use and the private-dirty byte count.
 *
 * Library calls are modelled as follows: `folly::parseTo<size_t>` skips C
 * white space, reads the longest run of decimal digits and fails on no
 * digits or a value above SIZE_MAX; `std::stoull` does the same after an
 * optional sign, a minus negating modulo 2^64; `folly::split` with a string
 * delimiter keeps empty pieces.  `size_t` is 64 bits and its arithmetic
 * wraps.
 */
module ProcUtil {
  import opened Wrappers

  const SIZE_MAX: nat := 0xFFFF_FFFF_FFFF_FFFF
  const WORD: nat := SIZE_MAX + 1

  /** The white space of C's `isspace` and of trim's default delimiter set. */
  const WHITESPACE: string := " \t\n\U{000B}\U{000C}\r"

  predicate IsSpace(c: char) { c in WHITESPACE }
  predicate IsDigit(c: char) { '0' <= c <= '9' }
  predicate AllDigits(s: string) { forall i :: 0 <= i < |s| ==> IsDigit(s[i]) }
  predicate AllSpaces(s: string) { forall i :: 0 <= i < |s| ==> IsSpace(s[i]) }

  // ---------------------------------------------------------------------
  // Decimal numbers
  // ---------------------------------------------------------------------

  function DigitValue(c: char): nat
    requires IsDigit(c)
  {
    c as int - '0' as int
  }

  function DigitChar(d: nat): (c: char)
    requires d < 10
    ensures IsDigit(c) && DigitValue(c) == d
  {
    ('0' as int + d) as char
  }

  /** The number a string of decimal digits denotes. */
  function DecimalValue(ds: string): nat
    requires AllDigits(ds)
    decreases |ds|
  {
    if ds == [] then 0 else DecimalValue(ds[..|ds| - 1]) * 10 + DigitValue(ds[|ds| - 1])
  }

  /** The shortest decimal spelling of `n`. */
  function Decimal(n: nat): (r: string)
    ensures |r| > 0 && AllDigits(r) && DecimalValue(r) == n
    ensures |r| > 1 ==> r[0] != '0'
  {
    if n < 10 then [DigitChar(n)]
    else
      var prefix := Decimal(n / 10);
      var r := prefix + [DigitChar(n % 10)];
      assert r[..|r| - 1] == prefix;
      r
  }

  /** The length of the longest prefix of `s` made of digits. */
  function DigitRun(s: string): (n: nat)
    ensures n <= |s| && AllDigits(s[..n]) && (n < |s| ==> !IsDigit(s[n]))
  {
    if s == [] || !IsDigit(s[0]) then 0 else 1 + DigitRun(s[1..])
  }

  /** The length of the longest prefix of `s` made of white space. */
  function SpaceRun(s: string): (n: nat)
    ensures n <= |s| && AllSpaces(s[..n]) && (n < |s| ==> !IsSpace(s[n]))
  {
    if s == [] || !IsSpace(s[0]) then 0 else 1 + SpaceRun(s[1..])
  }

  lemma {:induction false} DigitRunOfDigitsThen(ds: string, rest: string)
    requires AllDigits(ds) && (rest == [] || !IsDigit(rest[0]))
    ensures DigitRun(ds + rest) == |ds|
    decreases |ds|
  {
    if ds == [] {
      assert ds + rest == rest;
    } else {
      assert (ds + rest)[1..] == ds[1..] + rest;
      DigitRunOfDigitsThen(ds[1..], rest);
    }
  }

  lemma {:induction false} SpaceRunOfSpacesThen(sp: string, rest: string)
    requires AllSpaces(sp) && (rest == [] || !IsSpace(rest[0]))
    ensures SpaceRun(sp + rest) == |sp|
    decreases |sp|
  {
    if sp == [] {
      assert sp + rest == rest;
    } else {
      assert (sp + rest)[1..] == sp[1..] + rest;
      SpaceRunOfSpacesThen(sp[1..], rest);
    }
  }

  // ---------------------------------------------------------------------
  // folly::parseTo<size_t> and std::stoull
  // ---------------------------------------------------------------------

  datatype ParseError = EmptyInput | NoDigits | Overflow

  /** Reads one size_t; on success returns it with the text after its digits. */
  function ParseSize(s: string): (r: Result<(nat, string), ParseError>)
    ensures r.Success? ==> r.value.0 <= SIZE_MAX
    ensures r.Success? ==> |r.value.1| < |s| && r.value.1 == s[|s| - |r.value.1|..]
    ensures r.Success? ==> r.value.1 == [] || !IsDigit(r.value.1[0])
    ensures AllSpaces(s) ==> r == Failure(EmptyInput)
  {
    var k := SpaceRun(s);
    if k == |s| then
      assert s[..k] == s;
      Failure(EmptyInput)
    else
      var rest := s[k..];
      var n := DigitRun(rest);
      if n == 0 then
        assert !IsSpace(s[k]);
        Failure(NoDigits)
      else
        var v := DecimalValue(rest[..n]);
        if v > SIZE_MAX then Failure(Overflow) else Success((v, rest[n..]))
  }

  /** parseTo reads back what the decimal printer wrote, after any white space. */
  lemma ParseSizeReadsDecimal(sp: string, n: nat, rest: string)
    requires AllSpaces(sp) && n <= SIZE_MAX
    requires rest == [] || !IsDigit(rest[0])
    ensures ParseSize(sp + Decimal(n) + rest) == Success((n, rest))
  {
    var d := Decimal(n);
    var s := sp + d + rest;
    assert s == sp + (d + rest);
    assert !IsSpace(d[0]);
    SpaceRunOfSpacesThen(sp, d + rest);
    assert s[|sp|..] == d + rest;
    DigitRunOfDigitsThen(d, rest);
    assert (d + rest)[..|d|] == d;
    assert (d + rest)[|d|..] == rest;
  }

  datatype StoullError = InvalidArgument | OutOfRange

  /** std::stoull in base 10. */
  function Stoull(s: string): (r: Result<nat, StoullError>)
    ensures r.Success? ==> r.value <= SIZE_MAX
  {
    var t := s[SpaceRun(s)..];
    var negative := |t| > 0 && t[0] == '-';
    var u := if |t| > 0 && (t[0] == '-' || t[0] == '+') then t[1..] else t;
    var n := DigitRun(u);
    if n == 0 then Failure(InvalidArgument)
    else
      var v := DecimalValue(u[..n]);
      if v > SIZE_MAX then Failure(OutOfRange)
      else if negative then Success((WORD - v) % WORD)
      else Success(v)
  }

  lemma StoullReadsDecimal(n: nat, rest: string)
    requires n <= SIZE_MAX
    requires rest == [] || !IsDigit(rest[0])
    ensures Stoull(Decimal(n) + rest) == Success(n)
  {
    var d := Decimal(n);
    var s := d + rest;
    assert !IsSpace(s[0]);
    assert SpaceRun(s) == 0;
    assert s[0..] == s;
    DigitRunOfDigitsThen(d, rest);
    assert s[..|d|] == d;
  }

  // ---------------------------------------------------------------------
  // parseStatmFile
  // ---------------------------------------------------------------------

  datatype MemoryStats = MemoryStats(vsize: nat, resident: nat, shared: nat, text: nat, data: nat)

  /** size_t multiplication. */
  function MulWrap(a: nat, b: nat): nat { (a * b) % WORD }

  /** The first `n` numbers of `data`, read one after another, and the text after them. */
  function ParseColumns(data: string, n: nat): (r: Result<(seq<nat>, string), ParseError>)
    ensures r.Success? ==> |r.value.0| == n
  {
    if n == 0 then Success(([], data))
    else
      var prev := ParseColumns(data, n - 1);
      if prev.Failure? then prev
      else
        var p := ParseSize(prev.value.1);
        if p.Failure? then Failure(p.error) else Success((prev.value.0 + [p.value.0], p.value.1))
  }

  /** Once a column fails to parse, every longer read fails too. */
  lemma {:induction false} ParseColumnsFailurePersists(data: string, i: nat, n: nat)
    requires i <= n && ParseColumns(data, i).Failure?
    ensures ParseColumns(data, n).Failure?
    decreases n - i
  {
    if i < n {
      ParseColumnsFailurePersists(data, i + 1, n);
    }
  }

  lemma ParseColumnsNext(data: string, i: nat, values: seq<nat>, rest: string)
    requires ParseColumns(data, i) == Success((values, rest))
    ensures ParseColumns(data, i + 1) ==
      match ParseSize(rest)
      case Failure(e) => Failure(e)
      case Success((v, tail)) => Success((values + [v], tail))
  {
  }

  /** Columns 0, 1, 2, 3 and 5 (of seven) scaled from pages to bytes. */
  function StatsOf(v: seq<nat>, pageSize: nat): MemoryStats
    requires |v| == 7
  {
    MemoryStats(MulWrap(pageSize, v[0]), MulWrap(pageSize, v[1]), MulWrap(pageSize, v[2]),
                MulWrap(pageSize, v[3]), MulWrap(pageSize, v[5]))
  }

  /** What parseStatmFile computes from a file's text and the page size. */
  function Statm(data: string, pageSize: nat): Option<MemoryStats>
  {
    var p := ParseColumns(data, 7);
    if p.Failure? then None else Some(StatsOf(p.value.0, pageSize))
  }

  method ParseStatmFile(data: string, pageSize: nat) returns (r: Option<MemoryStats>)
    ensures r == Statm(data, pageSize)
  {
    var values := new nat[7];
    var rest := data;
    for i := 0 to 7
      invariant ParseColumns(data, i) == Success((values[..i], rest))
    {
      var p := ParseSize(rest);
      ghost var prefix := values[..i];
      if p.Failure? {
        assert ParseColumns(data, i + 1).Failure? by {
          ParseColumnsNext(data, i, prefix, rest);
        }
        ParseColumnsFailurePersists(data, i + 1, 7);
        return None;
      }
      assert ParseColumns(data, i + 1) == Success((prefix + [p.value.0], p.value.1)) by {
        ParseColumnsNext(data, i, prefix, rest);
      }
      values[i] := p.value.0;
      assert values[..i + 1] == prefix + [p.value.0];
      rest := p.value.1;
    }
    assert values[..7] == values[..];
    r := Some(StatsOf(values[..], pageSize));
  }

  /** Numbers written in decimal, each preceded by at least one white-space character. */
  function Columns(values: seq<nat>): string
  {
    if values == [] then [] else Columns(values[..|values| - 1]) + " " + Decimal(values[|values| - 1])
  }

  lemma ParseColumnsStep(data: string, n: nat, values: seq<nat>, rest: string, v: nat, tail: string)
    requires n > 0 && ParseColumns(data, n - 1) == Success((values, rest))
    requires ParseSize(rest) == Success((v, tail))
    ensures ParseColumns(data, n) == Success((values + [v], tail))
  {
  }

  lemma Regroup(a: string, b: string, c: string, d: string)
    ensures a + b + c + d == a + (b + c + d)
  {
  }

  lemma ColumnsSnoc(values: seq<nat>, tail: string)
    requires values != []
    ensures Columns(values) + tail == Columns(values[..|values| - 1]) + (" " + Decimal(values[|values| - 1]) + tail)
  {
    Regroup(Columns(values[..|values| - 1]), " ", Decimal(values[|values| - 1]), tail);
  }

  /** One more column: the number after the earlier columns reads back. */
  lemma ReadsColumnsStep(init: seq<nat>, last: nat, tail: string)
    requires last <= SIZE_MAX
    requires tail == [] || !IsDigit(tail[0])
    requires ParseColumns(Columns(init) + (" " + Decimal(last) + tail), |init|) == Success((init, " " + Decimal(last) + tail))
    ensures ParseColumns(Columns(init + [last]) + tail, |init| + 1) == Success((init + [last], tail))
  {
    var values := init + [last];
    var rest := " " + Decimal(last) + tail;
    var data := Columns(values) + tail;
    assert data == Columns(init) + rest by {
      assert values[..|values| - 1] == init;
      ColumnsSnoc(values, tail);
    }
    assert ParseSize(rest) == Success((last, tail)) by {
      ParseSizeReadsDecimal(" ", last, tail);
    }
    ParseColumnsStep(data, |values|, init, rest, last, tail);
  }

  lemma SnocSplit<T>(s: seq<T>)
    requires s != []
    ensures s[..|s| - 1] + [s[|s| - 1]] == s
  {
  }

  lemma {:induction false} ParseColumnsReadsColumns(values: seq<nat>, tail: string)
    requires forall i :: 0 <= i < |values| ==> values[i] <= SIZE_MAX
    requires tail == [] || !IsDigit(tail[0])
    ensures ParseColumns(Columns(values) + tail, |values|) == Success((values, tail))
    decreases |values|
  {
    if values == [] {
      assert Columns(values) + tail == tail;
    } else {
      var init, last := values[..|values| - 1], values[|values| - 1];
      var rest := " " + Decimal(last) + tail;
      assert rest[0] == ' ';
      ParseColumnsReadsColumns(init, rest);
      ReadsColumnsStep(init, last, tail);
      SnocSplit(values);
    }
  }

  /**
   * A statm text of seven numbers followed by anything that does not extend
   * the last number: the result scales columns 0, 1, 2, 3 and 5 by the page
   * size (wrapping like size_t) and ignores columns 4 and 6 and the tail.
   */
  lemma StatmOfSevenColumns(values: seq<nat>, tail: string, pageSize: nat)
    requires |values| == 7 && forall i :: 0 <= i < 7 ==> values[i] <= SIZE_MAX
    requires tail == [] || !IsDigit(tail[0])
    ensures Statm(Columns(values) + tail, pageSize) ==
            Some(MemoryStats(MulWrap(pageSize, values[0]), MulWrap(pageSize, values[1]),
                             MulWrap(pageSize, values[2]), MulWrap(pageSize, values[3]),
                             MulWrap(pageSize, values[5])))
  {
    ParseColumnsReadsColumns(values, tail);
  }

  /** Six numbers and then only white space: fewer than seven parse, so no result. */
  lemma StatmOfSixColumnsFails(values: seq<nat>, tail: string, pageSize: nat)
    requires |values| == 6 && forall i :: 0 <= i < 6 ==> values[i] <= SIZE_MAX
    requires AllSpaces(tail)
    ensures Statm(Columns(values) + tail, pageSize) == None
  {
    ParseColumnsReadsColumns(values, tail);
  }

  // ---------------------------------------------------------------------
  // trim
  // ---------------------------------------------------------------------

  /** std::string::find_first_not_of: the first index whose character is not in `delim`. */
  function FindFirstNotOf(s: string, delim: string): (r: Option<nat>)
    ensures r.None? <==> forall i :: 0 <= i < |s| ==> s[i] in delim
    ensures r.Some? ==> r.value < |s| && s[r.value] !in delim &&
                        forall i :: 0 <= i < r.value ==> s[i] in delim
  {
    if s == [] then None
    else if s[0] !in delim then Some(0)
    else match FindFirstNotOf(s[1..], delim)
      case None => None
      case Some(i) => Some(i + 1)
  }

  /** std::string::find_last_not_of: the last index whose character is not in `delim`. */
  function FindLastNotOf(s: string, delim: string): (r: Option<nat>)
    ensures r.None? <==> forall i :: 0 <= i < |s| ==> s[i] in delim
    ensures r.Some? ==> r.value < |s| && s[r.value] !in delim &&
                        forall i :: r.value < i < |s| ==> s[i] in delim
  {
    if s == [] then None
    else if s[|s| - 1] !in delim then Some(|s| - 1)
    else FindLastNotOf(s[..|s| - 1], delim)
  }

  /**
   * trim: erase up to the first character not in `delim` (everything when
   * there is none), then erase after the last such character (npos + 1
   * wraps to 0, so again everything when there is none).
   */
  function Trim(s: string, delim: string): string
  {
    var first := FindFirstNotOf(s, delim);
    var s1 := if first.Some? then s[first.value..] else [];
    var last := FindLastNotOf(s1, delim);
    s1[..if last.Some? then last.value + 1 else 0]
  }

  /** trim keeps a contiguous piece of its input and drops only delimiters around it. */
  lemma TrimBounds(s: string, delim: string) returns (i: nat, j: nat)
    ensures i <= j <= |s| && Trim(s, delim) == s[i..j]
    ensures forall k :: 0 <= k < i ==> s[k] in delim
    ensures forall k :: j <= k < |s| ==> s[k] in delim
    ensures i < j ==> s[i] !in delim && s[j - 1] !in delim
  {
    var first := FindFirstNotOf(s, delim);
    if first.None? {
      i, j := |s|, |s|;
    } else {
      var s1 := s[first.value..];
      var last := FindLastNotOf(s1, delim);
      assert last.Some? by {
        assert s1[0] !in delim;
      }
      i, j := first.value, first.value + last.value + 1;
      assert s1[..last.value + 1] == s[i..j];
      forall k | j <= k < |s| ensures s[k] in delim {
        assert s[k] == s1[k - first.value];
      }
    }
  }

  /** Neither end of a trimmed string is a delimiter. */
  lemma TrimEnds(s: string, delim: string)
    ensures var t := Trim(s, delim); t == [] || (t[0] !in delim && t[|t| - 1] !in delim)
  {
    var first := FindFirstNotOf(s, delim);
    if first.Some? {
      var s1 := s[first.value..];
      assert s1[0] !in delim;
      var last := FindLastNotOf(s1, delim);
      var t := s1[..last.value + 1];
      assert t[0] == s1[0] && t[|t| - 1] == s1[last.value];
    }
  }

  lemma TrimAllDelimiters(s: string, delim: string)
    requires forall k :: 0 <= k < |s| ==> s[k] in delim
    ensures Trim(s, delim) == []
  {
  }

  /** A string with no delimiter at either end is its own trim. */
  lemma {:induction false} TrimFixedPoint(t: string, delim: string)
    requires t == [] || (t[0] !in delim && t[|t| - 1] !in delim)
    ensures Trim(t, delim) == t
  {
    if t != [] {
      assert FindFirstNotOf(t, delim) == Some(0);
      assert t[0..] == t;
      assert FindLastNotOf(t, delim) == Some(|t| - 1);
      assert t[..|t|] == t;
    }
  }

  lemma TrimIdempotent(s: string, delim: string)
    ensures Trim(Trim(s, delim), delim) == Trim(s, delim)
  {
    TrimEnds(s, delim);
    TrimFixedPoint(Trim(s, delim), delim);
  }

  // ---------------------------------------------------------------------
  // folly::split and getKeyValuePair
  // ---------------------------------------------------------------------

  /** `d` occurs in `s` starting at index `k`. */
  predicate OccursAt(s: string, d: string, k: int)
  {
    0 <= k && k + |d| <= |s| && s[k..k + |d|] == d
  }

  lemma OccursAtShift(s: string, d: string, k: int)
    requires |s| > 0 && k >= 1
    ensures OccursAt(s, d, k) == OccursAt(s[1..], d, k - 1)
  {
    if k + |d| <= |s| {
      assert s[k..k + |d|] == s[1..][k - 1..k - 1 + |d|];
    }
  }

  /** The leftmost occurrence of a non-empty `d` in `s`. */
  function Find(s: string, d: string): (r: Option<nat>)
    requires |d| > 0
    ensures r.Some? ==> OccursAt(s, d, r.value)
    ensures r.Some? ==> forall k :: 0 <= k < r.value ==> !OccursAt(s, d, k)
    ensures r.None? ==> forall k :: !OccursAt(s, d, k)
    decreases |s|
  {
    if |s| < |d| then None
    else if s[..|d|] == d then Some(0)
    else match Find(s[1..], d)
      case None =>
        assert forall k :: k >= 1 ==> !OccursAt(s, d, k) by {
          forall k | k >= 1 ensures !OccursAt(s, d, k) {
            OccursAtShift(s, d, k);
          }
        }
        None
      case Some(i) =>
        OccursAtShift(s, d, i + 1);
        assert forall k :: 1 <= k < i + 1 ==> !OccursAt(s, d, k) by {
          forall k | 1 <= k < i + 1 ensures !OccursAt(s, d, k) {
            OccursAtShift(s, d, k);
          }
        }
        Some(i + 1)
  }

  function SplitFrom(s: string, d: string): (r: seq<string>)
    requires |d| > 0
    ensures |r| > 0
    decreases |s|
  {
    match Find(s, d)
    case None => [s]
    case Some(i) => [s[..i]] + SplitFrom(s[i + |d|..], d)
  }

  /** folly::split(delim, line, v): every piece between delimiters, empty ones kept. */
  function Split(s: string, d: string): (r: seq<string>)
    ensures |r| > 0
  {
    if |d| == 0 || |d| > |s| then [s] else SplitFrom(s, d)
  }

  function Join(pieces: seq<string>, d: string): string
  {
    if |pieces| <= 1 then (if pieces == [] then [] else pieces[0])
    else pieces[0] + d + Join(pieces[1..], d)
  }

  lemma {:induction false} JoinSplitFrom(s: string, d: string)
    requires |d| > 0
    ensures Join(SplitFrom(s, d), d) == s
    decreases |s|
  {
    match Find(s, d)
    case None =>
    case Some(i) =>
      var rest := s[i + |d|..];
      JoinSplitFrom(rest, d);
      JoinCons(s[..i], SplitFrom(rest, d), d);
      Recompose(s, d, i);
  }

  lemma JoinCons(p: string, pieces: seq<string>, d: string)
    requires |pieces| > 0
    ensures Join([p] + pieces, d) == p + d + Join(pieces, d)
  {
    assert ([p] + pieces)[0] == p && ([p] + pieces)[1..] == pieces;
  }

  /** A string is the text before an occurrence of `d`, `d`, and the text after it. */
  lemma Recompose(s: string, d: string, i: nat)
    requires OccursAt(s, d, i)
    ensures s == s[..i] + d + s[i + |d|..]
  {
    assert s == s[..i] + s[i..i + |d|] + s[i + |d|..];
  }

  /** Joining the pieces of a split with its delimiter restores the input. */
  lemma JoinSplit(s: string, d: string)
    ensures Join(Split(s, d), d) == s
  {
    if |d| > 0 && |d| <= |s| {
      JoinSplitFrom(s, d);
    }
  }

  function Occurrences(s: string, c: char): nat
  {
    if s == [] then 0 else (if s[0] == c then 1 else 0) + Occurrences(s[1..], c)
  }

  lemma {:induction false} OccurrencesBefore(s: string, c: char, i: nat)
    requires i <= |s| && forall k :: 0 <= k < i ==> s[k] != c
    ensures Occurrences(s, c) == Occurrences(s[i..], c)
    decreases i
  {
    if i > 0 {
      assert s[1..][i - 1..] == s[i..];
      OccurrencesBefore(s[1..], c, i - 1);
    }
  }

  lemma {:induction false} SplitFromOneCharCount(s: string, c: char)
    ensures |SplitFrom(s, [c])| == Occurrences(s, c) + 1
    decreases |s|
  {
    match Find(s, [c])
    case None =>
      forall k | 0 <= k < |s| ensures s[k] != c {
        assert !OccursAt(s, [c], k);
        assert s[k..k + 1] == [s[k]];
      }
      OccurrencesBefore(s, c, |s|);
      assert s[|s|..] == [];
    case Some(i) =>
      forall k | 0 <= k < i ensures s[k] != c {
        assert !OccursAt(s, [c], k);
        assert s[k..k + 1] == [s[k]];
      }
      assert s[i..i + 1] == [c];
      OccurrencesBefore(s, c, i);
      assert s[i..][1..] == s[i + 1..];
      SplitFromOneCharCount(s[i + 1..], c);
  }

  /** Splitting on one character gives one more piece than it has occurrences. */
  lemma SplitOneCharCount(s: string, c: char)
    ensures |Split(s, [c])| == Occurrences(s, c) + 1
  {
    if |s| == 0 {
    } else {
      SplitFromOneCharCount(s, c);
    }
  }

  /** getKeyValuePair: both trimmed pieces when the split gives exactly two, else two empty strings. */
  function GetKeyValuePair(line: string, delim: string): (string, string)
  {
    var v := Split(line, delim);
    if |v| == 2 then (Trim(v[0], WHITESPACE), Trim(v[1], WHITESPACE)) else ([], [])
  }

  /** A line with exactly one `c` splits into the text before and after it. */
  lemma SplitAtOnlyOccurrence(line: string, c: char) returns (i: nat)
    requires Occurrences(line, c) == 1
    ensures i < |line| && line[i] == c
    ensures Split(line, [c]) == [line[..i], line[i + 1..]]
  {
    SplitOneCharCount(line, c);
    assert |line| >= 1;
    var f := Find(line, [c]);
    assert f.Some?;
    i := f.value;
    assert line[i..i + 1] == [c];
    var rest := line[i + 1..];
    assert Split(line, [c]) == [line[..i]] + SplitFrom(rest, [c]);
    assert |SplitFrom(rest, [c])| == 1;
  }

  /**
   * With a one-character delimiter, a line with exactly one occurrence of it
   * yields the trimmed text on either side; any other line yields two empty
   * strings.
   */
  lemma KeyValueOneCharDelimiter(line: string, c: char)
    ensures Occurrences(line, c) != 1 ==> GetKeyValuePair(line, [c]) == ([], [])
    ensures Occurrences(line, c) == 1 ==>
      exists i :: 0 <= i < |line| && line[i] == c &&
        GetKeyValuePair(line, [c]) == (Trim(line[..i], WHITESPACE), Trim(line[i + 1..], WHITESPACE))
  {
    SplitOneCharCount(line, c);
    if Occurrences(line, c) == 1 {
      var i := SplitAtOnlyOccurrence(line, c);
    }
  }

  // ---------------------------------------------------------------------
  // parseProcSmaps
  // ---------------------------------------------------------------------

  /** std::getline over a whole text: lines split at '\n', without a final empty piece. */
  function Lines(text: string): seq<string>
  {
    var pieces := Split(text, "\n");
    if pieces[|pieces| - 1] == [] then pieces[..|pieces| - 1] else pieces
  }

  /** A line naming a mapping (an address range) starts a new block. */
  predicate IsHeader(line: string) { '-' in line }

  /** How parseProcSmaps splits a body line: getKeyValuePair with ":". */
  function SmapsKeyValue(line: string): (string, string) { GetKeyValuePair(line, ":") }

  /**
   * The loop state of parseProcSmaps.  The fold below is written for any
   * line splitter `kv`; the parser itself uses `SmapsKeyValue`.
   */
  datatype SmapsState = SmapsState(entryList: seq<map<string, string>>, headerFound: bool,
                                   currentMap: map<string, string>)

  const SmapsStart := SmapsState([], false, map[])

  function SmapsStep(st: SmapsState, line: string, kv: string -> (string, string)): SmapsState
  {
    if IsHeader(line) then
      SmapsState(if st.currentMap != map[] then st.entryList + [st.currentMap] else st.entryList,
                 true, map[])
    else if !st.headerFound then st
    else if kv(line).0 != [] then st.(currentMap := st.currentMap[kv(line).0 := kv(line).1])
    else st
  }

  /** The state after feeding `lines` to the loop from state `st`. */
  function SmapsRun(st: SmapsState, lines: seq<string>, kv: string -> (string, string)): SmapsState
  {
    if lines == [] then st else SmapsStep(SmapsRun(st, lines[..|lines| - 1], kv), lines[|lines| - 1], kv)
  }

  function SmapsFinish(st: SmapsState): seq<map<string, string>>
  {
    if st.currentMap != map[] then st.entryList + [st.currentMap] else st.entryList
  }

  function SmapsWith(lines: seq<string>, kv: string -> (string, string)): seq<map<string, string>>
  {
    SmapsFinish(SmapsRun(SmapsStart, lines, kv))
  }

  /** What parseProcSmaps returns for the given lines. */
  function Smaps(lines: seq<string>): seq<map<string, string>>
  {
    SmapsWith(lines, SmapsKeyValue)
  }

  method ParseProcSmaps(input: string) returns (entryList: seq<map<string, string>>)
    ensures entryList == Smaps(Lines(input))
  {
    var lines := Lines(input);
    entryList := [];
    var headerFound := false;
    var currentMap: map<string, string> := map[];
    for i := 0 to |lines|
      invariant SmapsRun(SmapsStart, lines[..i], SmapsKeyValue) == SmapsState(entryList, headerFound, currentMap)
    {
      var line := lines[i];
      assert lines[..i + 1][..i] == lines[..i];
      if '-' in line {
        if currentMap != map[] {
          entryList := entryList + [currentMap];
          currentMap := map[];
        }
        headerFound := true;
      } else {
        if !headerFound {
          continue;
        }
        var keyValue := GetKeyValuePair(line, ":");
        assert keyValue == SmapsKeyValue(line);
        if keyValue.0 != [] {
          currentMap := currentMap[keyValue.0 := keyValue.1];
        }
      }
    }
    assert lines[..|lines|] == lines;
    if currentMap != map[] {
      entryList := entryList + [currentMap];
    }
  }

  lemma {:induction false} SmapsRunConcat(st: SmapsState, a: seq<string>, b: seq<string>,
                                          kv: string -> (string, string))
    ensures SmapsRun(st, a + b, kv) == SmapsRun(SmapsRun(st, a, kv), b, kv)
    decreases |b|
  {
    if b == [] {
      assert a + b == a;
    } else {
      assert (a + b)[..|a + b| - 1] == a + b[..|b| - 1];
      SmapsRunConcat(st, a, b[..|b| - 1], kv);
    }
  }

  /** Before the first header every line is skipped. */
  lemma {:induction false} SmapsRunNoHeaderFromStart(lines: seq<string>, kv: string -> (string, string))
    requires forall i :: 0 <= i < |lines| ==> !IsHeader(lines[i])
    ensures SmapsRun(SmapsStart, lines, kv) == SmapsStart
    decreases |lines|
  {
    if lines != [] {
      SmapsRunNoHeaderFromStart(lines[..|lines| - 1], kv);
    }
  }

  lemma SmapsLeadingLinesIgnored(pre: seq<string>, lines: seq<string>, kv: string -> (string, string))
    requires forall i :: 0 <= i < |pre| ==> !IsHeader(pre[i])
    ensures SmapsWith(pre + lines, kv) == SmapsWith(lines, kv)
  {
    SmapsRunConcat(SmapsStart, pre, lines, kv);
    SmapsRunNoHeaderFromStart(pre, kv);
  }

  /** The key-value map built from the lines of one block. */
  function BlockMap(body: seq<string>, kv: string -> (string, string)): map<string, string>
  {
    if body == [] then map[]
    else
      var line := body[|body| - 1];
      var m := BlockMap(body[..|body| - 1], kv);
      if kv(line).0 != [] then m[kv(line).0 := kv(line).1] else m
  }

  lemma {:induction false} SmapsRunBody(st: SmapsState, body: seq<string>, kv: string -> (string, string))
    requires st.headerFound
    requires forall i :: 0 <= i < |body| ==> !IsHeader(body[i])
    ensures SmapsRun(st, body, kv) == st.(currentMap := st.currentMap + BlockMap(body, kv))
    decreases |body|
  {
    if body != [] {
      SmapsRunBody(st, body[..|body| - 1], kv);
    } else {
      assert st.currentMap + map[] == st.currentMap;
    }
  }

  /**
   * A header followed by header-free lines adds exactly one entry, the map
   * of those lines, unless that map is empty.
   */
  lemma SmapsAppendBlock(lines: seq<string>, header: string, body: seq<string>, kv: string -> (string, string))
    requires IsHeader(header)
    requires forall i :: 0 <= i < |body| ==> !IsHeader(body[i])
    ensures SmapsWith(lines + [header] + body, kv) ==
            SmapsWith(lines, kv) + (if BlockMap(body, kv) != map[] then [BlockMap(body, kv)] else [])
  {
    var st' := SmapsState(SmapsWith(lines, kv), true, map[]);
    var b := BlockMap(body, kv);
    SmapsRunAfterHeader(lines, header, kv);
    SmapsRunConcat(SmapsStart, lines + [header], body, kv);
    SmapsRunBody(st', body, kv);
    assert map[] + b == b;
  }

  /** A header closes the block before it and opens an empty one. */
  lemma SmapsRunAfterHeader(lines: seq<string>, header: string, kv: string -> (string, string))
    requires IsHeader(header)
    ensures SmapsRun(SmapsStart, lines + [header], kv) == SmapsState(SmapsWith(lines, kv), true, map[])
  {
    assert (lines + [header])[..|lines|] == lines;
  }

  /** No line after line `i` yields the same key. */
  predicate LastWithKey(body: seq<string>, i: nat, kv: string -> (string, string))
    requires i < |body|
  {
    forall j :: i < j < |body| ==> kv(body[j]).0 != kv(body[i]).0
  }

  /** Inside one block a key is present exactly when some line yields it; lines with an empty key are skipped. */
  lemma {:induction false} BlockMapKeys(body: seq<string>, kv: string -> (string, string))
    ensures forall k :: k in BlockMap(body, kv) <==>
      (k != [] && exists i :: 0 <= i < |body| && kv(body[i]).0 == k)
    decreases |body|
  {
    if body != [] {
      var init := body[..|body| - 1];
      BlockMapKeys(init, kv);
      forall k ensures k in BlockMap(body, kv) <==>
        (k != [] && exists i :: 0 <= i < |body| && kv(body[i]).0 == k)
      {
        if k != [] && exists i :: 0 <= i < |body| && kv(body[i]).0 == k {
          var i :| 0 <= i < |body| && kv(body[i]).0 == k;
          if i < |body| - 1 {
            assert init[i] == body[i];
          }
        }
        if k in BlockMap(init, kv) {
          var i :| 0 <= i < |init| && kv(init[i]).0 == k;
          assert body[i] == init[i];
        }
      }
    }
  }

  /** A key's value comes from the last line that yields it. */
  lemma {:induction false} BlockMapLastLineWins(body: seq<string>, kv: string -> (string, string))
    ensures forall i :: 0 <= i < |body| && kv(body[i]).0 != [] && LastWithKey(body, i, kv) ==>
      kv(body[i]).0 in BlockMap(body, kv) && BlockMap(body, kv)[kv(body[i]).0] == kv(body[i]).1
    decreases |body|
  {
    BlockMapKeys(body, kv);
    if body != [] {
      var init := body[..|body| - 1];
      BlockMapLastLineWins(init, kv);
      forall i | 0 <= i < |body| && kv(body[i]).0 != [] && LastWithKey(body, i, kv)
        ensures kv(body[i]).0 in BlockMap(body, kv) && BlockMap(body, kv)[kv(body[i]).0] == kv(body[i]).1
      {
        if i < |body| - 1 {
          assert init[i] == body[i];
          assert LastWithKey(init, i, kv) by {
            forall j | i < j < |init| ensures kv(init[j]).0 != kv(init[i]).0 {
              assert init[j] == body[j];
            }
          }
        }
      }
    }
  }

  predicate SmapsInvariant(st: SmapsState, headers: nat)
  {
    && (!st.headerFound ==> st.entryList == [] && st.currentMap == map[])
    && (st.headerFound ==> |st.entryList| + 1 <= headers)
    && forall i :: 0 <= i < |st.entryList| ==> st.entryList[i] != map[]
  }

  function HeaderCount(lines: seq<string>): nat
  {
    if lines == [] then 0
    else HeaderCount(lines[..|lines| - 1]) + (if IsHeader(lines[|lines| - 1]) then 1 else 0)
  }

  lemma {:induction false} SmapsRunInvariant(lines: seq<string>, kv: string -> (string, string))
    ensures SmapsInvariant(SmapsRun(SmapsStart, lines, kv), HeaderCount(lines))
    decreases |lines|
  {
    if lines != [] {
      SmapsRunInvariant(lines[..|lines| - 1], kv);
    }
  }

  /** No entry is ever empty, and there are at most as many entries as header lines. */
  lemma SmapsEntriesShape(lines: seq<string>, kv: string -> (string, string))
    ensures forall i :: 0 <= i < |SmapsWith(lines, kv)| ==> SmapsWith(lines, kv)[i] != map[]
    ensures |SmapsWith(lines, kv)| <= HeaderCount(lines)
  {
    SmapsRunInvariant(lines, kv);
  }

  // ---------------------------------------------------------------------
  // calculatePrivateBytes
  // ---------------------------------------------------------------------

  const PRIVATE_DIRTY: string := "Private_Dirty"
  const KB_SUFFIX: string := " kB"

  /**
   * The bytes one Private_Dirty value stands for: it must contain " kB"
   * somewhere (rfind finds an occurrence exactly when find does); its last
   * three characters are dropped, the rest is read by stoull and the number
   * multiplied by 1024 as a size_t.
   */
  function DirtyBytes(value: string): Option<nat>
  {
    if Find(value, KB_SUFFIX).None? then None
    else match Stoull(value[..|value| - 3])
      case Failure(_) => None
      case Success(n) => Some(MulWrap(n, 1024))
  }

  lemma DirtyBytesOfKilobytes(n: nat)
    requires n <= SIZE_MAX
    ensures DirtyBytes(Decimal(n) + KB_SUFFIX) == Some(MulWrap(n, 1024))
  {
    var d := Decimal(n);
    var v := d + KB_SUFFIX;
    assert Find(v, KB_SUFFIX).Some? by {
      assert v[|d|..|d| + 3] == KB_SUFFIX;
      assert OccursAt(v, KB_SUFFIX, |d|);
    }
    assert Stoull(v[..|v| - 3]) == Success(n) by {
      assert v[..|v| - 3] == d + [];
      StoullReadsDecimal(n, []);
    }
  }

  /**
   * Text after the " kB" does not matter: the last three characters are
   * dropped and stoull stops at the first non-digit, so `N kB<anything>`
   * still counts N kilobytes.
   */
  lemma DirtyBytesIgnoresTextAfterSuffix(n: nat, extra: string)
    requires n <= SIZE_MAX
    ensures DirtyBytes(Decimal(n) + KB_SUFFIX + extra) == Some(MulWrap(n, 1024))
  {
    var d := Decimal(n);
    var v := d + KB_SUFFIX + extra;
    assert Find(v, KB_SUFFIX).Some? by {
      SuffixFound(d, extra);
    }
    assert Stoull(v[..|v| - 3]) == Success(n) by {
      var tail := KeptBeforeLastThree(d, extra);
      StoullReadsDecimal(n, tail);
    }
    DirtyBytesOf(v, n);
  }

  lemma DirtyBytesOf(value: string, n: nat)
    requires Find(value, KB_SUFFIX).Some? && Stoull(value[..|value| - 3]) == Success(n)
    ensures DirtyBytes(value) == Some(MulWrap(n, 1024))
  {
  }

  lemma SuffixFound(d: string, extra: string)
    ensures Find(d + KB_SUFFIX + extra, KB_SUFFIX).Some?
  {
    var v := d + KB_SUFFIX + extra;
    assert v[|d|..|d| + 3] == KB_SUFFIX;
    assert OccursAt(v, KB_SUFFIX, |d|);
  }

  /** Dropping the last three characters of `d kB<extra>` leaves `d` and text starting with a space. */
  lemma KeptBeforeLastThree(d: string, extra: string) returns (tail: string)
    ensures var v := d + KB_SUFFIX + extra; v[..|v| - 3] == d + tail
    ensures tail == [] || tail[0] == ' '
  {
    var w := KB_SUFFIX + extra;
    tail := w[..|extra|];
    var v := d + KB_SUFFIX + extra;
    assert v == d + w;
    assert v[..|v| - 3] == d + tail;
  }

  /** A map whose Private_Dirty value cannot be read. */
  predicate BadEntry(m: map<string, string>)
  {
    PRIVATE_DIRTY in m && DirtyBytes(m[PRIVATE_DIRTY]).None?
  }

  /** The bytes of one map: 0 when it has no (readable) Private_Dirty. */
  function EntryBytes(m: map<string, string>): nat
  {
    if PRIVATE_DIRTY in m && DirtyBytes(m[PRIVATE_DIRTY]).Some? then DirtyBytes(m[PRIVATE_DIRTY]).value else 0
  }

  function TotalBytes(maps: seq<map<string, string>>): nat
  {
    if maps == [] then 0 else TotalBytes(maps[..|maps| - 1]) + EntryBytes(maps[|maps| - 1])
  }

  lemma TotalBytesStep(maps: seq<map<string, string>>, i: nat)
    requires i < |maps|
    ensures TotalBytes(maps[..i + 1]) == TotalBytes(maps[..i]) + EntryBytes(maps[i])
  {
    assert maps[..i + 1][..i] == maps[..i];
  }

  lemma AddWrap(a: nat, b: nat)
    ensures (a % WORD + b) % WORD == (a + b) % WORD
  {
  }

  /**
   * calculatePrivateBytes: none if any map's Private_Dirty value lacks " kB"
   * or fails to parse; otherwise the sum of those values times 1024, as a
   * size_t, skipping maps without the key.
   */
  method CalculatePrivateBytes(maps: seq<map<string, string>>) returns (r: Option<nat>)
    ensures r.None? <==> exists i :: 0 <= i < |maps| && BadEntry(maps[i])
    ensures r.Some? ==> r.value == TotalBytes(maps) % WORD
  {
    var count: nat := 0;
    for i := 0 to |maps|
      invariant Summed(maps, i, count)
    {
      var currentMap := maps[i];
      if PRIVATE_DIRTY in currentMap {
        var entry := currentMap[PRIVATE_DIRTY];
        var bytes := DirtyBytes(entry);
        if bytes.None? {
          assert BadEntry(maps[i]);
          return None;
        }
        SummedStep(maps, i, count, bytes.value);
        count := (count + bytes.value) % WORD;
      } else {
        SummedSkip(maps, i, count);
      }
    }
    assert maps[..|maps|] == maps;
    r := Some(count);
  }

  /** The loop of calculatePrivateBytes has summed the first `i` maps, none of them bad. */
  ghost predicate Summed(maps: seq<map<string, string>>, i: nat, count: nat)
  {
    && i <= |maps|
    && count == TotalBytes(maps[..i]) % WORD
    && forall j :: 0 <= j < i ==> !BadEntry(maps[j])
  }

  lemma SummedStep(maps: seq<map<string, string>>, i: nat, count: nat, bytes: nat)
    requires Summed(maps, i, count) && i < |maps|
    requires PRIVATE_DIRTY in maps[i] && DirtyBytes(maps[i][PRIVATE_DIRTY]) == Some(bytes)
    ensures Summed(maps, i + 1, (count + bytes) % WORD)
  {
    TotalBytesStep(maps, i);
    AddWrap(TotalBytes(maps[..i]), bytes);
  }

  lemma SummedSkip(maps: seq<map<string, string>>, i: nat, count: nat)
    requires Summed(maps, i, count) && i < |maps|
    requires PRIVATE_DIRTY !in maps[i]
    ensures Summed(maps, i + 1, count)
  {
    TotalBytesStep(maps, i);
  }

  lemma {:induction false} TotalBytesWithoutKey(maps: seq<map<string, string>>)
    requires forall i :: 0 <= i < |maps| ==> PRIVATE_DIRTY !in maps[i]
    ensures TotalBytes(maps) == 0
    decreases |maps|
  {
    if maps != [] {
      TotalBytesWithoutKey(maps[..|maps| - 1]);
    }
  }

  lemma {:induction false} TotalBytesConcat(a: seq<map<string, string>>, b: seq<map<string, string>>)
    ensures TotalBytes(a + b) == TotalBytes(a) + TotalBytes(b)
    decreases |b|
  {
    if b == [] {
      assert a + b == a;
    } else {
      assert (a + b)[..|a + b| - 1] == a + b[..|b| - 1];
      TotalBytesConcat(a, b[..|b| - 1]);
    }
  }

  /** Inserting maps without Private_Dirty anywhere does not change the total. */
  lemma TotalBytesSkipsMapsWithoutKey(a: seq<map<string, string>>, gap: seq<map<string, string>>,
                                      b: seq<map<string, string>>)
    requires forall i :: 0 <= i < |gap| ==> PRIVATE_DIRTY !in gap[i]
    ensures TotalBytes(a + gap + b) == TotalBytes(a + b)
  {
    TotalBytesConcat(a + gap, b);
    TotalBytesConcat(a, gap);
    TotalBytesConcat(a, b);
    TotalBytesWithoutKey(gap);
  }
}
