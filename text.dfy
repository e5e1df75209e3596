/** Decimal integers and string splitting, as the puzzle parsers use them:
    Rust's `str::parse::<i32>` / `::<i64>` and `str::split_once`. */
module Text {
  import opened Wrappers

  const I32_MIN: int := -0x8000_0000
  const I32_MAX: int := 0x7FFF_FFFF
  const I64_MIN: int := -0x8000_0000_0000_0000
  const I64_MAX: int := 0x7FFF_FFFF_FFFF_FFFF

  predicate IsDigit(c: char) { '0' <= c <= '9' }

  predicate AllDigits(s: string) { forall i :: 0 <= i < |s| ==> IsDigit(s[i]) }

  /** The value of a string of decimal digits, most significant first. */
  function DigitsValue(s: string): (v: nat)
    requires AllDigits(s)
  {
    if s == [] then 0 else 10 * DigitsValue(s[..|s| - 1]) + (s[|s| - 1] - '0') as nat
  }

  /** Rust's integer `parse` without its range check: an optional `+` or `-`
      followed by at least one digit and nothing else. */
  function ParseInt(s: string): (r: Option<int>)
    ensures r.Some? ==> |s| > 0
    ensures r.Some? && s[0] != '-' ==> r.value >= 0
  {
    if |s| > 0 && (s[0] == '-' || s[0] == '+') then
      var digits := s[1..];
      if digits != [] && AllDigits(digits) then
        Some(if s[0] == '-' then -(DigitsValue(digits) as int) else DigitsValue(digits))
      else None
    else if s != [] && AllDigits(s) then Some(DigitsValue(s))
    else None
  }

  /** `parse::<T>()` for a signed type whose range is lo..=hi: out-of-range
      values are an error, as in Rust. */
  function ParseBounded(s: string, lo: int, hi: int): (r: Option<int>)
    ensures r.Some? ==> lo <= r.value <= hi
    ensures r.Some? ==> ParseInt(s) == r
  {
    match ParseInt(s)
    case Some(n) => if lo <= n <= hi then Some(n) else None
    case None => None
  }

  function DigitChar(d: nat): char
    requires d < 10
  {
    ('0' as int + d) as char
  }

  /** The shortest decimal rendering of a natural number. */
  function ShowNat(n: nat): (s: string)
    ensures |s| > 0 && AllDigits(s)
  {
    if n < 10 then [DigitChar(n)] else ShowNat(n / 10) + [DigitChar(n % 10)]
  }

  /** Decimal rendering of an integer, with a leading `-` when negative
      (what Rust's `Display` prints). */
  function ShowInt(n: int): (s: string)
    ensures |s| > 0
    ensures s[0] == '-' || IsDigit(s[0])
    ensures forall i :: 0 <= i < |s| ==> s[i] == '-' || IsDigit(s[i])
  {
    if n < 0 then "-" + ShowNat(-n) else ShowNat(n)
  }

  lemma {:induction false} ShowNatValue(n: nat)
    ensures DigitsValue(ShowNat(n)) == n
  {
    if n >= 10 {
      ShowNatValue(n / 10);
      var s := ShowNat(n);
      assert s[..|s| - 1] == ShowNat(n / 10);
    }
  }

  /** Parsing what ShowInt prints gives back the number. */
  lemma ParseShowInt(n: int)
    ensures ParseInt(ShowInt(n)) == Some(n)
  {
    if n < 0 {
      ShowNatValue(-n);
      assert ShowInt(n)[1..] == ShowNat(-n);
    } else {
      ShowNatValue(n);
    }
  }

  lemma ParseShowBounded(n: int, lo: int, hi: int)
    requires lo <= n <= hi
    ensures ParseBounded(ShowInt(n), lo, hi) == Some(n)
  {
    ParseShowInt(n);
  }

  /** True when `sep` occurs in `s` starting at index i. */
  predicate OccursAt(s: string, sep: string, i: nat)
  {
    i + |sep| <= |s| && s[i..i + |sep|] == sep
  }

  /** The first index at or after `from` where `sep` occurs. */
  function FindFrom(s: string, sep: string, from: nat): (r: Option<nat>)
    requires from <= |s|
    ensures r.Some? ==> from <= r.value && OccursAt(s, sep, r.value)
    ensures r.Some? ==> forall i :: from <= i < r.value ==> !OccursAt(s, sep, i)
    ensures r.None? ==> forall i :: from <= i <= |s| ==> !OccursAt(s, sep, i)
    decreases |s| - from
  {
    if from + |sep| > |s| then None
    else if s[from..from + |sep|] == sep then Some(from)
    else FindFrom(s, sep, from + 1)
  }

  /** `str::split_once`: the text before and after the first `sep`. */
  function SplitOnce(s: string, sep: string): (r: Option<(string, string)>)
    ensures r.Some? ==> s == r.value.0 + sep + r.value.1
    ensures r.Some? ==> forall i :: 0 <= i < |r.value.0| ==> !OccursAt(s, sep, i)
    ensures r.None? ==> forall i :: 0 <= i <= |s| ==> !OccursAt(s, sep, i)
  {
    match FindFrom(s, sep, 0)
    case None => None
    case Some(i) =>
      assert s == s[..i] + s[i..i + |sep|] + s[i + |sep|..];
      Some((s[..i], s[i + |sep|..]))
  }

  /** Splitting at a separator that the left part does not contain recovers
      both parts. */
  lemma SplitOnceJoin(a: string, sep: string, b: string)
    requires |sep| > 0
    requires forall i :: 0 <= i < |a| ==> !OccursAt(a + sep + b, sep, i)
    ensures SplitOnce(a + sep + b, sep) == Some((a, b))
  {
    var s := a + sep + b;
    assert OccursAt(s, sep, |a|) by {
      assert s[|a|..|a| + |sep|] == sep;
    }
    var r := SplitOnce(s, sep);
    assert r.Some?;
    assert |r.value.0| == |a|;
    assert r.value.0 == s[..|a|];
    assert s[..|a|] == a;
    assert r.value.1 == s[|a| + |sep|..];
    assert s[|a| + |sep|..] == b;
  }

  /** `str::starts_with`. */
  predicate StartsWith(s: string, prefix: string)
  {
    |prefix| <= |s| && s[..|prefix|] == prefix
  }

  /** `str::split(sep)`: the pieces between separators, empty ones included. */
  function SplitAll(s: string, sep: string): (r: seq<string>)
    requires |sep| > 0
    ensures |r| >= 1
    decreases |s|
  {
    match SplitOnce(s, sep)
    case None => [s]
    case Some((a, b)) => [a] + SplitAll(b, sep)
  }

  /** Joins pieces with `sep` between them. */
  function Join(pieces: seq<string>, sep: string): string
    requires |pieces| >= 1
  {
    if |pieces| == 1 then pieces[0] else pieces[0] + sep + Join(pieces[1..], sep)
  }

  /** Splitting loses nothing: joining the pieces gives back the text. */
  lemma {:induction false} JoinSplitAll(s: string, sep: string)
    requires |sep| > 0
    ensures Join(SplitAll(s, sep), sep) == s
    decreases |s|
  {
    match SplitOnce(s, sep)
    case None =>
    case Some((a, b)) =>
      JoinSplitAll(b, sep);
      assert SplitAll(s, sep)[1..] == SplitAll(b, sep);
  }

  /** A line without the carriage return of a `\r\n` ending. */
  function StripCr(line: string): (r: string)
    ensures r == line || (r + "\r" == line)
    ensures |line| > 0 && line[|line| - 1] == '\r' ==> r + "\r" == line
  {
    if |line| > 0 && line[|line| - 1] == '\r' then line[..|line| - 1] else line
  }

  /** `str::lines`: the pieces between newlines, each without the
      carriage return of a `\r\n` ending, and without the empty piece after
      a final newline. A carriage return not followed by a newline stays.
      No line holds a newline. */
  function Lines(s: string): (r: seq<string>)
    ensures forall k :: 0 <= k < |r| ==> '\n' !in r[k]
  {
    var pieces := SplitAll(s, "\n");
    SplitAllNoSeparator(s, '\n');
    var ended := pieces[..|pieces| - 1];
    var last := pieces[|pieces| - 1];
    seq(|ended|, i requires 0 <= i < |ended| => StripCr(ended[i])) + (if last == "" then [] else [last])
  }

  /** No piece of a split at one character holds that character. */
  lemma {:induction false} SplitAllNoSeparator(s: string, c: char)
    ensures forall k :: 0 <= k < |SplitAll(s, [c])| ==> c !in SplitAll(s, [c])[k]
    decreases |s|
  {
    match SplitOnce(s, [c])
    case None =>
      forall i | 0 <= i < |s|
        ensures s[i] != c
      {
        assert !OccursAt(s, [c], i);
        assert s[i..i + 1] == [s[i]];
      }
    case Some((a, b)) =>
      forall i | 0 <= i < |a|
        ensures a[i] != c
      {
        assert !OccursAt(s, [c], i);
        assert s[i..i + 1] == [a[i]];
      }
      SplitAllNoSeparator(b, c);
      assert SplitAll(s, [c]) == [a] + SplitAll(b, [c]);
  }

  /** Each line followed by `ending`. */
  function Terminated(lines: seq<string>, ending: string): string
  {
    if lines == [] then "" else lines[0] + ending + Terminated(lines[1..], ending)
  }

  /** A line that survives being written with `ending` and read back:
      it holds no newline and, when the ending is a bare newline, does not
      end in a carriage return the reader would take as part of `\r\n`. */
  predicate Writable(line: string, ending: string)
  {
    '\n' !in line && (ending == "\n" ==> line == [] || line[|line| - 1] != '\r')
  }

  /** Splitting text whose first piece holds no separator character peels
      that piece off. */
  lemma SplitAllFirst(a: string, sep: char, rest: string)
    requires sep !in a
    ensures SplitAll(a + [sep] + rest, [sep]) == [a] + SplitAll(rest, [sep])
  {
    forall i | 0 <= i < |a|
      ensures !OccursAt(a + [sep] + rest, [sep], i)
    {
      assert (a + [sep] + rest)[i..i + 1] == [a[i]];
    }
    SplitOnceJoin(a, [sep], rest);
  }

  /** Splitting terminated lines at newlines gives each line with the
      ending's carriage return, then an empty last piece. */
  lemma {:induction false} SplitTerminated(lines: seq<string>, ending: string)
    requires ending == "\n" || ending == "\r\n"
    requires forall k :: 0 <= k < |lines| ==> Writable(lines[k], ending)
    ensures var pieces := SplitAll(Terminated(lines, ending), "\n");
      && |pieces| == |lines| + 1 && pieces[|lines|] == ""
      && forall k :: 0 <= k < |lines| ==> pieces[k] == lines[k] + ending[..|ending| - 1]
  {
    hide SplitAll, Terminated, Writable;
    if lines == [] {
      SplitNothing(ending);
    } else {
      var cr := ending[..|ending| - 1];
      var head := lines[0] + cr;
      var tail := Terminated(lines[1..], ending);
      var rest := SplitAll(tail, "\n");
      assert SplitAll(Terminated(lines, ending), "\n") == [head] + rest by {
        TerminatedFirst(lines, ending);
        SplitAllFirst(head, '\n', tail);
      }
      assert && |rest| == |lines| && rest[|lines| - 1] == ""
             && forall k :: 0 <= k < |lines| - 1 ==> rest[k] == lines[k + 1] + cr by {
        var later := lines[1..];
        assert forall k :: 0 <= k < |later| ==> later[k] == lines[k + 1];
        SplitTerminated(later, ending);
      }
      forall k | 1 <= k < |lines|
        ensures ([head] + rest)[k] == lines[k] + cr
      {
        assert ([head] + rest)[k] == rest[k - 1];
      }
    }
  }

  /** No lines are written as no text, which splits into one empty piece. */
  lemma SplitNothing(ending: string)
    ensures SplitAll(Terminated([], ending), "\n") == [""]
  {
    assert SplitOnce("", "\n") == None;
  }

  /** Terminated lines begin with the first line, the ending's carriage
      return if any, and a newline. */
  lemma TerminatedFirst(lines: seq<string>, ending: string)
    requires ending == "\n" || ending == "\r\n"
    requires |lines| > 0 && Writable(lines[0], ending)
    ensures var head := lines[0] + ending[..|ending| - 1];
      && '\n' !in head
      && Terminated(lines, ending) == head + "\n" + Terminated(lines[1..], ending)
  {
    WritableHead(lines[0], ending);
    TerminatedUnfold(lines, ending);
  }

  /** A writable line with the ending's carriage return holds no newline. */
  lemma WritableHead(line: string, ending: string)
    requires ending == "\n" || ending == "\r\n"
    requires Writable(line, ending)
    ensures '\n' !in line + ending[..|ending| - 1]
  {
  }

  /** The first line's ending splits into its carriage return and newline. */
  lemma TerminatedUnfold(lines: seq<string>, ending: string)
    requires ending == "\n" || ending == "\r\n"
    requires |lines| > 0
    ensures Terminated(lines, ending)
      == lines[0] + ending[..|ending| - 1] + "\n" + Terminated(lines[1..], ending)
  {
  }

  /** Writing lines that hold no newline, each ended by `\n` or `\r\n`,
      and reading them back with `Lines` gives the same lines. */
  lemma LinesTerminated(lines: seq<string>, ending: string)
    requires ending == "\n" || ending == "\r\n"
    requires forall k :: 0 <= k < |lines| ==> Writable(lines[k], ending)
    ensures Lines(Terminated(lines, ending)) == lines
  {
    var text := Terminated(lines, ending);
    var pieces := SplitAll(text, "\n");
    SplitTerminated(lines, ending);
    var cr := ending[..|ending| - 1];
    forall k | 0 <= k < |lines|
      ensures StripCr(pieces[k]) == lines[k]
    {
      assert Writable(lines[k], ending);
      if ending == "\r\n" {
        assert pieces[k] == lines[k] + "\r";
        assert pieces[k][..|pieces[k]| - 1] == lines[k];
      } else {
        assert pieces[k] == lines[k];
      }
    }
    hide SplitAll, Terminated, Writable, StripCr;
    var ended := pieces[..|pieces| - 1];
    assert seq(|ended|, i requires 0 <= i < |ended| => StripCr(ended[i])) == lines;
  }

  /** Splitting pieces joined by a character none of them holds gives the
      pieces back. */
  lemma {:induction false} SplitAllJoinChar(pieces: seq<string>, c: char)
    requires |pieces| >= 1
    requires forall k :: 0 <= k < |pieces| ==> c !in pieces[k]
    ensures SplitAll(Join(pieces, [c]), [c]) == pieces
    decreases |pieces|
  {
    if |pieces| == 1 {
      var p := pieces[0];
      forall i | 0 <= i <= |p|
        ensures !OccursAt(p, [c], i)
      {
        if i < |p| {
          assert p[i..i + 1] == [p[i]];
        }
      }
    } else {
      SplitAllFirst(pieces[0], c, Join(pieces[1..], [c]));
      SplitAllJoinChar(pieces[1..], c);
    }
  }

  /** Text with no blank line in it and no newline at either end. */
  predicate Paragraph(s: string)
  {
    && |s| > 0 && s[0] != '\n' && s[|s| - 1] != '\n'
    && forall i :: 0 <= i < |s| - 1 ==> !(s[i] == '\n' && s[i + 1] == '\n')
  }

  /** Splitting paragraphs joined by blank lines gives the paragraphs back. */
  lemma {:induction false} SplitAllJoinBlank(groups: seq<string>)
    requires |groups| >= 1
    requires forall k :: 0 <= k < |groups| ==> Paragraph(groups[k])
    ensures SplitAll(Join(groups, "\n\n"), "\n\n") == groups
    decreases |groups|
  {
    var g := groups[0];
    assert Paragraph(g);
    if |groups| == 1 {
      forall i | 0 <= i <= |g|
        ensures !OccursAt(g, "\n\n", i)
      {
        if i + 2 <= |g| {
          assert g[i..i + 2] == [g[i], g[i + 1]];
        }
      }
    } else {
      var rest := Join(groups[1..], "\n\n");
      var s := g + "\n\n" + rest;
      forall i | 0 <= i < |g|
        ensures !OccursAt(s, "\n\n", i)
      {
        assert s[i..i + 2] == [s[i], s[i + 1]];
        if i < |g| - 1 {
          assert s[i] == g[i] && s[i + 1] == g[i + 1];
        } else {
          assert s[i] == g[|g| - 1];
        }
      }
      SplitOnceJoin(g, "\n\n", rest);
      SplitAllJoinBlank(groups[1..]);
    }
  }

  /** Non-empty lines without newlines, joined by newlines, make a
      paragraph. */
  lemma {:induction false} JoinLinesParagraph(pieces: seq<string>)
    requires |pieces| >= 1
    requires forall k :: 0 <= k < |pieces| ==> |pieces[k]| > 0 && '\n' !in pieces[k]
    ensures Paragraph(Join(pieces, "\n"))
    decreases |pieces|
  {
    var p := pieces[0];
    assert |p| > 0 && '\n' !in p;
    if |pieces| > 1 {
      JoinLinesParagraph(pieces[1..]);
      var rest := Join(pieces[1..], "\n");
      var s := p + "\n" + rest;
      assert s[0] == p[0];
      assert s[|s| - 1] == rest[|rest| - 1];
      forall i | 0 <= i < |s| - 1
        ensures !(s[i] == '\n' && s[i + 1] == '\n')
      {
        if i < |p| - 1 {
          assert s[i] == p[i];
        } else if i == |p| - 1 {
          assert s[i] == p[i];
        } else if i == |p| {
          assert s[i + 1] == rest[0];
        } else {
          assert s[i] == rest[i - |p| - 1] && s[i + 1] == rest[i - |p|];
        }
      }
    }
  }

  /** Reading back lines joined by newlines, none of them empty, holding a
      newline or ending in a carriage return, gives the lines. */
  lemma LinesJoined(pieces: seq<string>)
    requires |pieces| >= 1
    requires forall k :: 0 <= k < |pieces| ==> |pieces[k]| > 0 && Writable(pieces[k], "\n")
    ensures Lines(Join(pieces, "\n")) == pieces
  {
    SplitAllJoinChar(pieces, '\n');
    forall k | 0 <= k < |pieces|
      ensures StripCr(pieces[k]) == pieces[k]
    {
      assert Writable(pieces[k], "\n");
    }
  }
}
