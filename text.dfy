/**
 * The string operations of the Go standard library that the harvester relies on:
 * `strings.Replace(s, old, new, 1)`, `strings.Split`/tab-joined formatting,
 * `bufio.ScanLines` and the `%05d` verb of `fmt.Sprintf`.
 */
module Text {
  import opened Wrappers

  // ---------------------------------------------------------------------------
  // First-occurrence search and replacement
  // ---------------------------------------------------------------------------

  /** `pat` occurs in `s` starting at index `i`. */
  predicate OccursAt(s: string, pat: string, i: nat) {
    i + |pat| <= |s| && s[i..i + |pat|] == pat
  }

  /** `pat` occurs nowhere in `s`. */
  predicate Absent(s: string, pat: string) {
    forall i: nat :: i <= |s| ==> !OccursAt(s, pat, i)
  }

  /** `i` is the leftmost occurrence of `pat` in `s`. */
  predicate FirstOccurrence(s: string, pat: string, i: nat) {
    OccursAt(s, pat, i) && forall j: nat :: j < i ==> !OccursAt(s, pat, j)
  }

  /** Leftmost occurrence of `pat` in `s` at or after `from`. */
  function FindFrom(s: string, pat: string, from: nat): (r: Option<nat>)
    ensures r.Some? ==> from <= r.value && OccursAt(s, pat, r.value)
    ensures r.Some? ==> forall j: nat :: from <= j < r.value ==> !OccursAt(s, pat, j)
    ensures r.None? ==> forall j: nat :: from <= j ==> !OccursAt(s, pat, j)
    decreases |s| - from
  {
    if |s| < from + |pat| then None
    else if s[from..from + |pat|] == pat then Some(from)
    else FindFrom(s, pat, from + 1)
  }

  /** Leftmost occurrence of `pat` in `s`, as `strings.Index` finds it. */
  function FindFirst(s: string, pat: string): (r: Option<nat>)
    ensures r.None? <==> Absent(s, pat)
    ensures r.Some? ==> FirstOccurrence(s, pat, r.value)
  {
    FindFrom(s, pat, 0)
  }

  /**
   * `strings.Replace(s, pat, rep, 1)`: only the leftmost occurrence of `pat` is replaced;
   * the text before and after it is kept. An empty `pat` matches at index 0.
   */
  function ReplaceFirst(s: string, pat: string, rep: string): (r: string)
    ensures Absent(s, pat) ==> r == s
    ensures forall i: nat :: FirstOccurrence(s, pat, i) ==> r == s[..i] + rep + s[i + |pat|..]
  {
    match FindFirst(s, pat)
    case None => s
    case Some(i) => s[..i] + rep + s[i + |pat|..]
  }

  /** `s` ends with `suffix`. */
  predicate EndsWith(s: string, suffix: string) {
    |suffix| <= |s| && s[|s| - |suffix|..] == suffix
  }

  // ---------------------------------------------------------------------------
  // Joining and splitting on a separator character
  // ---------------------------------------------------------------------------

  /** The fields separated by single `sep` characters (the empty list gives ""). */
  function Join(fields: seq<string>, sep: char): string {
    if |fields| == 0 then ""
    else if |fields| == 1 then fields[0]
    else fields[0] + [sep] + Join(fields[1..], sep)
  }

  /** `strings.Split(s, string(sep))`: the pieces between separators; always at least one piece. */
  function Split(s: string, sep: char): (r: seq<string>)
    ensures |r| >= 1
  {
    if |s| == 0 then [""]
    else
      var rest := Split(s[1..], sep);
      if s[0] == sep then [""] + rest else [[s[0]] + rest[0]] + rest[1..]
  }

  /** No field contains the separator. */
  predicate NoSep(fields: seq<string>, sep: char) {
    forall k :: 0 <= k < |fields| ==> sep !in fields[k]
  }

  lemma {:induction false} SplitWithoutSep(s: string, sep: char)
    requires sep !in s
    ensures Split(s, sep) == [s]
  {
    if |s| > 0 {
      assert sep !in s[1..];
      SplitWithoutSep(s[1..], sep);
      assert [s[0]] + s[1..] == s;
    }
  }

  /** The pieces of `a` followed by those of `b`, with the last piece of `a` glued to the first of `b`. */
  function Glue(A: seq<string>, B: seq<string>): seq<string>
    requires |A| >= 1 && |B| >= 1
  {
    A[..|A| - 1] + [A[|A| - 1] + B[0]] + B[1..]
  }

  /** One unfolding of `Split` on a text with a known first character. */
  lemma SplitCons(c: char, t: string, sep: char)
    ensures Split([c] + t, sep) ==
              if c == sep then [""] + Split(t, sep) else [[c] + Split(t, sep)[0]] + Split(t, sep)[1..]
  {
    assert ([c] + t)[0] == c;
    assert ([c] + t)[1..] == t;
  }

  lemma GlueSep(A: seq<string>, B: seq<string>)
    requires |A| >= 1 && |B| >= 1
    ensures Glue([""] + A, B) == [""] + Glue(A, B)
  {
    assert ([""] + A)[..|A|] == [""] + A[..|A| - 1];
  }

  lemma GlueChar(c: char, A: seq<string>, B: seq<string>)
    requires |A| >= 1 && |B| >= 1
    ensures var G := Glue(A, B);
            Glue([[c] + A[0]] + A[1..], B) == [[c] + G[0]] + G[1..]
  {
    var G := Glue(A, B);
    var CA := [[c] + A[0]] + A[1..];
    if |A| == 1 {
      assert G == [A[0] + B[0]] + B[1..];
      assert [c] + (A[0] + B[0]) == ([c] + A[0]) + B[0];
      assert Glue(CA, B) == [([c] + A[0]) + B[0]] + B[1..];
    } else {
      assert G[0] == A[0];
      assert G[1..] == A[1..|A| - 1] + [A[|A| - 1] + B[0]] + B[1..];
      assert CA[..|CA| - 1] == [[c] + A[0]] + A[1..|A| - 1];
      assert CA[|CA| - 1] == A[|A| - 1];
    }
  }

  /** Splitting a concatenation glues the last piece of `a` to the first piece of `b`. */
  lemma {:induction false} SplitAppend(a: string, b: string, sep: char)
    ensures Split(a + b, sep) == Glue(Split(a, sep), Split(b, sep))
  {
    var B := Split(b, sep);
    if |a| == 0 {
      assert a + b == b;
      assert Split(a, sep) == [""];
      assert "" + B[0] == B[0];
      assert Glue([""], B) == [B[0]] + B[1..];
      assert B == [B[0]] + B[1..];
    } else {
      var c, a' := a[0], a[1..];
      assert a == [c] + a';
      assert a + b == [c] + (a' + b);
      SplitAppend(a', b, sep);
      SplitCons(c, a', sep);
      SplitCons(c, a' + b, sep);
      if c == sep {
        GlueSep(Split(a', sep), B);
      } else {
        GlueChar(c, Split(a', sep), B);
      }
    }
  }

  /** The fields after the first keep the separator out. */
  lemma NoSepTail(fields: seq<string>, sep: char)
    requires |fields| >= 1 && NoSep(fields, sep)
    ensures NoSep(fields[1..], sep) && sep !in fields[0]
  {
    assert 0 < |fields|;
    forall k | 0 <= k < |fields| - 1 ensures sep !in fields[1..][k] { assert fields[1..][k] == fields[k + 1]; }
  }

  /** Putting a separator-free field in front of joined fields that split back. */
  lemma SplitJoinCons(first: string, rest: seq<string>, sep: char)
    requires |rest| >= 1 && sep !in first
    requires Split(Join(rest, sep), sep) == rest
    ensures Split(Join([first] + rest, sep), sep) == [first] + rest
  {
    var tail := [sep] + Join(rest, sep);
    assert Split(tail, sep) == [""] + rest by {
      SplitCons(sep, Join(rest, sep), sep);
    }
    assert Join([first] + rest, sep) == first + tail by {
      assert ([first] + rest)[1..] == rest;
    }
    SplitWithoutSep(first, sep);
    SplitAppend(first, tail, sep);
    assert first + "" == first;
  }

  /** Splitting undoes joining when no field contains the separator. */
  lemma {:induction false} SplitJoin(fields: seq<string>, sep: char)
    requires |fields| >= 1 && NoSep(fields, sep)
    ensures Split(Join(fields, sep), sep) == fields
  {
    NoSepTail(fields, sep);
    if |fields| == 1 {
      SplitWithoutSep(fields[0], sep);
    } else {
      SplitJoin(fields[1..], sep);
      SplitJoinCons(fields[0], fields[1..], sep);
      assert fields == [fields[0]] + fields[1..];
    }
  }

  /** A leading separator adds an empty first piece. */
  lemma JoinSplitSep(t: string, sep: char)
    requires Join(Split(t, sep), sep) == t && NoSep(Split(t, sep), sep)
    ensures Join(Split([sep] + t, sep), sep) == [sep] + t && NoSep(Split([sep] + t, sep), sep)
  {
    var rest := Split(t, sep);
    SplitCons(sep, t, sep);
    var r := [""] + rest;
    assert r[1..] == rest;
    forall k | 0 <= k < |r| ensures sep !in r[k] {
      if k > 0 { assert r[k] == rest[k - 1]; }
    }
  }

  /** A leading non-separator character joins the first piece. */
  lemma JoinSplitChar(c: char, t: string, sep: char)
    requires c != sep
    requires Join(Split(t, sep), sep) == t && NoSep(Split(t, sep), sep)
    ensures Join(Split([c] + t, sep), sep) == [c] + t && NoSep(Split([c] + t, sep), sep)
  {
    var rest := Split(t, sep);
    SplitCons(c, t, sep);
    var r := [[c] + rest[0]] + rest[1..];
    assert r[1..] == rest[1..];
    if |rest| > 1 {
      assert Join(rest, sep) == rest[0] + [sep] + Join(rest[1..], sep);
    }
    assert sep !in rest[0];
    forall k | 0 <= k < |r| ensures sep !in r[k] {
      if k > 0 { assert r[k] == rest[k]; }
    }
  }

  /** Joining undoes splitting, and no piece contains the separator. */
  lemma {:induction false} JoinSplit(s: string, sep: char)
    ensures Join(Split(s, sep), sep) == s
    ensures NoSep(Split(s, sep), sep)
  {
    if |s| > 0 {
      JoinSplit(s[1..], sep);
      assert s == [s[0]] + s[1..];
      if s[0] == sep {
        JoinSplitSep(s[1..], sep);
      } else {
        JoinSplitChar(s[0], s[1..], sep);
      }
    }
  }

  // ---------------------------------------------------------------------------
  // Line scanning (bufio.ScanLines) and line-terminated text
  // ---------------------------------------------------------------------------

  /** Drops one trailing carriage return, as `bufio.ScanLines` does. */
  function DropCR(line: string): string {
    if |line| > 0 && line[|line| - 1] == '\r' then line[..|line| - 1] else line
  }

  /**
   * The lines a `bufio.Scanner` with `ScanLines` yields: the text is cut at every newline,
   * a final empty piece after a trailing newline is not a line, and one trailing
   * carriage return is removed from each line.
   */
  function ScanLines(text: string): (lines: seq<string>)
    ensures |text| == 0 ==> lines == []
    ensures forall k :: 0 <= k < |lines| ==> '\n' !in lines[k]
  {
    if |text| == 0 then []
    else
      var parts := Split(text, '\n');
      var pieces := if text[|text| - 1] == '\n' then parts[..|parts| - 1] else parts;
      JoinSplit(text, '\n');
      assert forall k :: 0 <= k < |pieces| ==> pieces[k] == parts[k];
      DropCRsNoNewline(pieces);
      DropCRs(pieces)
  }

  lemma DropCRsNoNewline(pieces: seq<string>)
    requires forall k :: 0 <= k < |pieces| ==> '\n' !in pieces[k]
    ensures forall k :: 0 <= k < |pieces| ==> '\n' !in DropCRs(pieces)[k]
  {
    forall k | 0 <= k < |pieces| ensures '\n' !in DropCRs(pieces)[k] {
      var p := pieces[k];
      if |p| > 0 && p[|p| - 1] == '\r' {
        assert forall j :: 0 <= j < |p| - 1 ==> p[..|p| - 1][j] == p[j];
      }
    }
  }

  /** `DropCR` applied to every piece. */
  function DropCRs(pieces: seq<string>): (lines: seq<string>)
    ensures |lines| == |pieces|
  {
    seq(|pieces|, i requires 0 <= i < |pieces| => DropCR(pieces[i]))
  }

  /** Each line followed by a newline. */
  function Unlines(lines: seq<string>): (text: string) {
    if |lines| == 0 then ""
    else Unlines(lines[..|lines| - 1]) + lines[|lines| - 1] + "\n"
  }

  /** Empty, or ending in a newline: text that further lines can be appended to. */
  predicate Terminated(text: string) {
    |text| == 0 || text[|text| - 1] == '\n'
  }

  /** A line that survives a write/scan round trip: no newline and no carriage return. */
  predicate LineSafe(line: string) {
    '\n' !in line && '\r' !in line
  }

  lemma GlueEmptyPair(A: seq<string>)
    requires |A| >= 1
    ensures Glue(A, ["", ""]) == A + [""]
  {
    assert A[|A| - 1] + "" == A[|A| - 1];
    assert A[..|A| - 1] + [A[|A| - 1]] == A;
  }

  /** A text that ends in the separator splits into pieces whose last one is empty. */
  lemma SplitTerminated(prefix: string, sep: char)
    ensures Split(prefix + [sep], sep) == Split(prefix, sep) + [""]
  {
    assert Split([sep], sep) == ["", ""] by {
      SplitCons(sep, "", sep);
      assert [sep] + "" == [sep];
    }
    SplitAppend(prefix, [sep], sep);
    GlueEmptyPair(Split(prefix, sep));
  }

  lemma DropCRsSnoc(pieces: seq<string>, line: string)
    requires '\r' !in line
    ensures DropCRs(pieces + [line]) == DropCRs(pieces) + [line]
  {
    assert DropCR(line) == line by {
      if |line| > 0 { assert line[|line| - 1] in line; }
    }
  }

  lemma GlueAfterEmpty(A: seq<string>, line: string)
    ensures Glue(A + [""], [line, ""]) == A + [line, ""]
  {
    assert (A + [""])[..|A|] == A;
    assert "" + line == line;
  }

  /** The pieces of terminated text followed by a line without a newline, and a newline. */
  lemma SplitAppendLine(prior: string, line: string)
    requires |prior| > 0 && prior[|prior| - 1] == '\n' && '\n' !in line
    ensures var P := Split(prior, '\n');
            Split(prior + line + "\n", '\n') == P[..|P| - 1] + [line, ""]
  {
    var p := prior[..|prior| - 1];
    var P := Split(prior, '\n');
    assert P == Split(p, '\n') + [""] by {
      assert prior == p + ['\n'];
      SplitTerminated(p, '\n');
    }
    assert Split(prior + (line + "\n"), '\n') == Split(p, '\n') + [line, ""] by {
      SplitLine(line);
      SplitAppend(prior, line + "\n", '\n');
      GlueAfterEmpty(Split(p, '\n'), line);
    }
    assert prior + line + "\n" == prior + (line + "\n");
    assert P[..|P| - 1] == Split(p, '\n');
  }

  /** The lines of non-empty text that ends in a newline: every piece but the empty last one. */
  lemma ScanLinesTerminated(text: string)
    requires |text| > 0 && text[|text| - 1] == '\n'
    ensures var P := Split(text, '\n');
            ScanLines(text) == DropCRs(P[..|P| - 1])
  {
  }

  lemma SplitLine(line: string)
    requires '\n' !in line
    ensures Split(line + "\n", '\n') == [line, ""]
  {
    SplitWithoutSep(line, '\n');
    SplitTerminated(line, '\n');
    assert line + ['\n'] == line + "\n";
  }

  /** A single safe line followed by a newline scans as that line. */
  lemma ScanLinesOneLine(line: string)
    requires LineSafe(line)
    ensures ScanLines(line + "\n") == [line]
  {
    var text := line + "\n";
    assert text[|text| - 1] == '\n';
    ScanLinesTerminated(text);
    SplitLine(line);
    var Q := Split(text, '\n');
    assert Q[..|Q| - 1] == [] + [line];
    DropCRsSnoc([], line);
  }

  lemma ScanLinesAppendLineNonEmpty(prior: string, line: string)
    requires |prior| > 0 && prior[|prior| - 1] == '\n' && LineSafe(line)
    ensures ScanLines(prior + line + "\n") == ScanLines(prior) + [line]
  {
    var text := prior + line + "\n";
    assert text[|text| - 1] == '\n';
    ScanLinesTerminated(text);
    ScanLinesTerminated(prior);
    var P := Split(prior, '\n');
    var Q := Split(text, '\n');
    SplitAppendLine(prior, line);
    assert Q[..|Q| - 1] == P[..|P| - 1] + [line];
    DropCRsSnoc(P[..|P| - 1], line);
  }

  /** Appending a safe line and a newline to terminated text adds exactly that line. */
  lemma ScanLinesAppendLine(prior: string, line: string)
    requires Terminated(prior) && LineSafe(line)
    ensures ScanLines(prior + line + "\n") == ScanLines(prior) + [line]
  {
    if |prior| == 0 {
      assert prior + line + "\n" == line + "\n";
      ScanLinesOneLine(line);
    } else {
      ScanLinesAppendLineNonEmpty(prior, line);
    }
  }

  lemma {:induction false} UnlinesTerminated(prior: string, lines: seq<string>)
    requires Terminated(prior)
    ensures Terminated(prior + Unlines(lines))
  {
    if |lines| > 0 {
      var text := prior + Unlines(lines);
      assert text == prior + Unlines(lines[..|lines| - 1]) + lines[|lines| - 1] + "\n";
    } else {
      assert prior + Unlines(lines) == prior;
    }
  }

  /** Scanning terminated text followed by written lines gives the old lines and then exactly those lines. */
  lemma {:induction false} ScanUnlines(prior: string, lines: seq<string>)
    requires Terminated(prior)
    requires forall k :: 0 <= k < |lines| ==> LineSafe(lines[k])
    ensures ScanLines(prior + Unlines(lines)) == ScanLines(prior) + lines
  {
    if |lines| == 0 {
      assert prior + Unlines(lines) == prior;
    } else {
      var init := lines[..|lines| - 1];
      var last := lines[|lines| - 1];
      var before := prior + Unlines(init);
      assert lines == init + [last];
      assert prior + Unlines(lines) == before + last + "\n" by {
        assert Unlines(lines) == Unlines(init) + last + "\n";
        Associative(prior, Unlines(init), last + "\n");
        Associative(before, last, "\n");
      }
      Associative(ScanLines(prior), init, [last]);
      assert forall k :: 0 <= k < |init| ==> LineSafe(init[k]);
      ScanUnlines(prior, init);
      UnlinesTerminated(prior, init);
      ScanLinesAppendLine(before, last);
    }
  }

  lemma Associative<T>(a: seq<T>, b: seq<T>, c: seq<T>)
    ensures a + (b + c) == a + b + c
  {
  }

  // ---------------------------------------------------------------------------
  // Decimal numerals and the %05d verb
  // ---------------------------------------------------------------------------

  predicate IsDigit(c: char) {
    '0' <= c <= '9'
  }

  predicate AllDigits(s: string) {
    forall k :: 0 <= k < |s| ==> IsDigit(s[k])
  }

  function DigitChar(d: nat): (c: char)
    requires d < 10
    ensures IsDigit(c) && c as int - '0' as int == d
  {
    ('0' as int + d) as char
  }

  /** The shortest decimal numeral of `n`, as `%d` prints it. */
  function Decimal(n: nat): (s: string)
    ensures |s| >= 1 && AllDigits(s)
  {
    if n < 10 then [DigitChar(n)] else Decimal(n / 10) + [DigitChar(n % 10)]
  }

  /** `k` zero characters. */
  function Zeros(k: nat): (s: string)
    ensures |s| == k && AllDigits(s)
  {
    if k == 0 then "" else Zeros(k - 1) + "0"
  }

  /** `fmt.Sprintf("%05d", n)`: the numeral of `n` left-padded with zeros to width 5. */
  function Pad5(n: nat): (s: string)
    ensures AllDigits(s)
  {
    var d := Decimal(n);
    if |d| < 5 then Zeros(5 - |d|) + d else d
  }

  /**
   * `%05d` pads with zeros only and only as far as needed: at least five digits, the
   * numeral at the end, zeros before it, and exactly five digits unless the numeral is longer.
   */
  lemma Pad5Shape(n: nat)
    ensures var s, d := Pad5(n), Decimal(n);
            && |s| >= 5
            && EndsWith(s, d)
            && (forall k :: 0 <= k < |s| - |d| ==> s[k] == '0')
            && (|s| == 5 || s == d)
  {
    var d := Decimal(n);
    if |d| < 5 {
      var z := Zeros(5 - |d|);
      assert (z + d)[|z|..] == d;
      assert forall k :: 0 <= k < |z| ==> (z + d)[k] == z[k];
      ZerosAll(5 - |d|);
    }
  }

  lemma {:induction false} ZerosAll(k: nat)
    ensures forall j :: 0 <= j < k ==> Zeros(k)[j] == '0'
  {
    if k > 0 {
      ZerosAll(k - 1);
      assert forall j :: 0 <= j < k - 1 ==> Zeros(k)[j] == Zeros(k - 1)[j];
    }
  }

  /** The value a numeral denotes (leading zeros allowed). */
  function DecimalValue(s: string): nat
    requires AllDigits(s)
  {
    if |s| == 0 then 0
    else DecimalValue(s[..|s| - 1]) * 10 + (s[|s| - 1] as int - '0' as int)
  }

  lemma {:induction false} DecimalRoundTrip(n: nat)
    ensures DecimalValue(Decimal(n)) == n
  {
    if n >= 10 {
      DecimalRoundTrip(n / 10);
      var s := Decimal(n);
      assert s[..|s| - 1] == Decimal(n / 10);
    }
  }

  lemma {:induction false} DecimalLength(n: nat, k: nat)
    requires k >= 1 && n < Power10(k)
    ensures |Decimal(n)| <= k
  {
    if n >= 10 {
      assert Power10(k) == 10 * Power10(k - 1);
      assert n / 10 < Power10(k - 1);
      assert Power10(0) == 1;
      assert k - 1 != 0;
      DecimalLength(n / 10, k - 1);
    }
  }

  function Power10(k: nat): nat {
    if k == 0 then 1 else 10 * Power10(k - 1)
  }

  /** Leading zeros do not change the value of a numeral. */
  lemma {:induction false} LeadingZeros(k: nat, s: string)
    requires AllDigits(s)
    ensures AllDigits(Zeros(k) + s)
    ensures DecimalValue(Zeros(k) + s) == DecimalValue(s)
  {
    var t := Zeros(k) + s;
    assert AllDigits(t) by {
      forall i | 0 <= i < |t| ensures IsDigit(t[i]) {
        if i < k { assert t[i] == Zeros(k)[i]; } else { assert t[i] == s[i - k]; }
      }
    }
    if |s| == 0 {
      ZerosValue(k);
      assert t == Zeros(k);
    } else {
      var init := s[..|s| - 1];
      LeadingZeros(k, init);
      assert t[..|t| - 1] == Zeros(k) + init;
    }
  }

  lemma {:induction false} ZerosValue(k: nat)
    ensures DecimalValue(Zeros(k)) == 0
  {
    if k > 0 {
      var z, z' := Zeros(k), Zeros(k - 1);
      assert z[..k - 1] == z' && z[k - 1] == '0';
      ZerosValue(k - 1);
      assert DecimalValue(z) == DecimalValue(z') * 10 + 0;
    }
  }

  /** The padded numeral still denotes its number, so distinct counters give distinct names. */
  lemma Pad5RoundTrip(n: nat)
    ensures DecimalValue(Pad5(n)) == n
  {
    DecimalRoundTrip(n);
    var d := Decimal(n);
    if |d| < 5 {
      LeadingZeros(5 - |d|, d);
    }
  }

  lemma Pad5Injective(m: nat, n: nat)
    requires Pad5(m) == Pad5(n)
    ensures m == n
  {
    Pad5RoundTrip(m);
    Pad5RoundTrip(n);
  }

  /** Below 100000 the padded numeral has exactly five digits. */
  lemma Pad5Width(n: nat)
    requires n < 100000
    ensures |Pad5(n)| == 5
  {
    assert Power10(5) == 100000;
    DecimalLength(n, 5);
  }

  /** Lexicographic order on strings: the first differing character decides. */
  predicate LexLess(a: string, b: string) {
    exists i :: 0 <= i < |a| && i < |b| && a[..i] == b[..i] && a[i] < b[i]
  }

  /** A number written as `p * 10 + x` with a digit `x` determines both `p` and `x`. */
  lemma LastDigit(p: nat, q: nat, x: int, y: int)
    requires 0 <= x < 10 && 0 <= y < 10 && p * 10 + x == q * 10 + y
    ensures p == q && x == y
  {
    assert (p - q) * 10 == y - x;
  }

  lemma {:induction false} EqualValueEqualDigits(a: string, b: string)
    requires AllDigits(a) && AllDigits(b) && |a| == |b|
    requires DecimalValue(a) == DecimalValue(b)
    ensures a == b
  {
    if |a| > 0 {
      var a', b' := a[..|a| - 1], b[..|b| - 1];
      var x, y := a[|a| - 1] as int - '0' as int, b[|b| - 1] as int - '0' as int;
      assert IsDigit(a[|a| - 1]) && IsDigit(b[|b| - 1]);
      assert DecimalValue(a) == DecimalValue(a') * 10 + x;
      assert DecimalValue(b) == DecimalValue(b') * 10 + y;
      LastDigit(DecimalValue(a'), DecimalValue(b'), x, y);
      EqualValueEqualDigits(a', b');
      assert a == a' + [a[|a| - 1]];
      assert b == b' + [b[|b| - 1]];
    }
  }

  /** For numerals of equal width, a smaller value means lexicographically smaller text. */
  lemma {:induction false} SmallerValueLexLess(a: string, b: string)
    requires AllDigits(a) && AllDigits(b) && |a| == |b|
    requires DecimalValue(a) < DecimalValue(b)
    ensures LexLess(a, b)
  {
    var n := |a|;
    assert n > 0;
    var a', b' := a[..n - 1], b[..n - 1];
    var x, y := a[n - 1] as int - '0' as int, b[n - 1] as int - '0' as int;
    assert IsDigit(a[n - 1]) && IsDigit(b[n - 1]);
    assert 0 <= x < 10 && 0 <= y < 10;
    var va, vb := DecimalValue(a'), DecimalValue(b');
    assert DecimalValue(a) == va * 10 + x;
    assert DecimalValue(b) == vb * 10 + y;
    if va < vb {
      SmallerValueLexLess(a', b');
      var i :| 0 <= i < |a'| && i < |b'| && a'[..i] == b'[..i] && a'[i] < b'[i];
      assert a[..i] == a'[..i] && b[..i] == b'[..i];
      assert a[i] == a'[i] && b[i] == b'[i];
    } else if va == vb {
      EqualValueEqualDigits(a', b');
      assert x < y;
      assert a[..n - 1] == b[..n - 1];
      assert a[n - 1] < b[n - 1];
    } else {
      assert false;
    }
  }

  /** Subdirectory names of distinct counters below 100000 sort in counter order. */
  lemma Pad5Increasing(m: nat, n: nat)
    requires m < n < 100000
    ensures LexLess(Pad5(m), Pad5(n))
  {
    Pad5Width(m);
    Pad5Width(n);
    Pad5RoundTrip(m);
    Pad5RoundTrip(n);
    SmallerValueLexLess(Pad5(m), Pad5(n));
  }

  /** Two safe lines, each with its newline, are scanned back as those two lines. */
  lemma ScanTwoLines(first: string, second: string)
    requires LineSafe(first) && LineSafe(second)
    ensures ScanLines(first + "\n" + second + "\n") == [first, second]
  {
    assert Unlines([first, second]) == first + "\n" + second + "\n" by {
      assert [first, second][..1] == [first];
      assert Unlines([first]) == first + "\n" by { assert [first][..0] == []; }
    }
    assert "" + Unlines([first, second]) == first + "\n" + second + "\n";
    ScanUnlines("", [first, second]);
    assert ScanLines("") + [first, second] == [first, second];
  }

  /** Joining a non-empty head before a non-empty tail puts one separator between them. */
  lemma {:induction false} JoinConcat(head: seq<string>, tail: seq<string>, sep: char)
    requires |head| >= 1 && |tail| >= 1
    ensures Join(head + tail, sep) == Join(head, sep) + [sep] + Join(tail, sep)
  {
    if |head| > 1 {
      assert (head + tail)[1..] == head[1..] + tail;
      JoinConcat(head[1..], tail, sep);
    } else {
      assert (head + tail)[1..] == tail;
    }
  }
}
