/**
 * The line parser `extractTasks` falls back to when the model call fails (src/App.jsx): the
 * input is cut into non-blank lines, each loses one bullet and one number marker, is split
 * into a name and a memo at the first usable separator, and an overlong name is shortened.
 */
module FallbackParser {
  import opened Collections
  import opened Text
  import Tasks

  // ------------------------------------------------------------------ raw lines

  /** `input.replace(/\\n/g, '\n')`: every two-character text `\n` becomes a line break, left to right. */
  function UnescapeNewlines(s: string): (r: string)
    ensures |r| <= |s|
    ensures '\\' !in s ==> r == s
    ensures forall i :: 0 <= i < |r| - 1 ==> !(r[i] == '\\' && r[i + 1] == 'n')
    ensures |r| > 0 <==> |s| > 0
    ensures |s| > 0 ==> (r[0] == 'n' <==> s[0] == 'n')
  {
    if |s| >= 2 && s[0] == '\\' && s[1] == 'n' then "\n" + UnescapeNewlines(s[2..])
    else if |s| == 0 then ""
    else
      assert s == [s[0]] + s[1..];
      [s[0]] + UnescapeNewlines(s[1..])
  }

  /** The text up to the first `\n` is kept, that pair becomes one line break, and the rest is converted in turn. */
  lemma {:induction false} UnescapeAtFirstPair(a: string, b: string)
    requires '\\' !in a
    ensures UnescapeNewlines(a + "\\n" + b) == a + "\n" + UnescapeNewlines(b)
  {
    if a == [] {
      assert a + "\\n" + b == "\\n" + b;
      assert ("\\n" + b)[2..] == b;
    } else {
      var s := a + "\\n" + b;
      assert s[0] == a[0] != '\\';
      assert s[1..] == a[1..] + "\\n" + b;
      assert UnescapeNewlines(s) == [a[0]] + UnescapeNewlines(a[1..] + "\\n" + b);
      UnescapeAtFirstPair(a[1..], b);
      assert [a[0]] + (a[1..] + "\n" + UnescapeNewlines(b)) == a + "\n" + UnescapeNewlines(b);
    }
  }

  /** `s.split(c)`: the pieces between the occurrences of `c`; there is always at least one. */
  function SplitOn(s: string, c: char): (pieces: seq<string>)
    ensures |pieces| >= 1
    ensures forall k :: 0 <= k < |pieces| ==> c !in pieces[k]
    decreases |s|
  {
    var i := IndexOf(s, c);
    if i == -1 then [s] else [s[..i]] + SplitOn(s[i + 1..], c)
  }

  /** The pieces joined back with `c`. */
  function JoinWith(pieces: seq<string>, c: char): string
  {
    if |pieces| == 0 then ""
    else if |pieces| == 1 then pieces[0]
    else pieces[0] + [c] + JoinWith(pieces[1..], c)
  }

  /** Splitting loses nothing: joining the pieces with the separator gives the text back. */
  lemma {:induction false} SplitOnJoin(s: string, c: char)
    ensures JoinWith(SplitOn(s, c), c) == s
    decreases |s|
  {
    var i := IndexOf(s, c);
    if i != -1 {
      var rest := SplitOn(s[i + 1..], c);
      SplitOnJoin(s[i + 1..], c);
      var p := [s[..i]] + rest;
      assert SplitOn(s, c) == p;
      assert p[0] == s[..i] && p[1..] == rest && |p| >= 2;
      assert JoinWith(p, c) == s[..i] + [c] + JoinWith(rest, c);
      assert s == s[..i] + [c] + s[i + 1..];
    }
  }

  predicate NotBlank(line: string)
  {
    !IsBlank(line)
  }

  /** The lines the parser works on: `split('\n').filter(l => l.trim())`. */
  function Lines(input: string): (lines: seq<string>)
    ensures forall k :: 0 <= k < |lines| ==> !IsBlank(lines[k]) && '\n' !in lines[k]
  {
    Filter(SplitOn(UnescapeNewlines(input), '\n'), NotBlank)
  }

  // ----------------------------------------------------------------- markers

  predicate IsBulletChar(c: char)
  {
    c == '-' || c == '•' || c == '*'
  }

  /** `replace(/^[\-\•\*]\s+/, '')`: one bullet and the whitespace run after it, if the line starts so. */
  function StripBullet(line: string): (r: string)
    ensures |r| <= |line| && r == line[|line| - |r|..]
    ensures r != line <==> |line| >= 2 && IsBulletChar(line[0]) && IsWhitespace(line[1])
    ensures r != line ==> (forall i :: 1 <= i < |line| - |r| ==> IsWhitespace(line[i])) && (r != "" ==> !IsWhitespace(r[0]))
  {
    if |line| >= 2 && IsBulletChar(line[0]) && IsWhitespace(line[1]) then
      var rest := line[1..];
      rest[LeadingSpace(rest)..]
    else line
  }

  /** `replace(/^\d+[\.\)]\s+/, '')`: a number, a `.` or `)`, and the whitespace run after it, if the line starts so. */
  function StripNumber(line: string): (r: string)
    ensures |r| <= |line| && r == line[|line| - |r|..]
    ensures r != line <==>
      var n := LeadingDigits(line);
      n >= 1 && n + 1 < |line| && (line[n] == '.' || line[n] == ')') && IsWhitespace(line[n + 1])
    ensures r != "" && r != line ==> !IsWhitespace(r[0])
  {
    var n := LeadingDigits(line);
    if n >= 1 && n + 1 < |line| && (line[n] == '.' || line[n] == ')') && IsWhitespace(line[n + 1]) then
      var rest := line[n + 1..];
      rest[LeadingSpace(rest)..]
    else line
  }

  /** `cleaned`: both markers removed, then trimmed. */
  function Cleaned(line: string): string
  {
    Trim(StripNumber(StripBullet(line)))
  }

  lemma StripBulletExample()
    ensures StripBullet("- 1. x") == "1. x"
  {
    var a := "- 1. x";
    assert a[1..] == " 1. x" && LeadingSpace(" 1. x") == 1;
  }

  lemma StripNumberExample()
    ensures StripNumber("1. x") == "x"
  {
    var a := "1. x";
    assert a[1..] == ". x";
    assert LeadingDigits(a) == 1;
    assert a[2..] == " x" && LeadingSpace(" x") == 1;
  }

  lemma StripBulletSkipsNumber()
    ensures StripBullet("1. - x") == "1. - x"
  {
    var b := "1. - x";
    assert b[0] == '1' && !IsBulletChar(b[0]);
  }

  lemma StripNumberKeepsBullet()
    ensures StripNumber("1. - x") == "- x"
  {
    var b := "1. - x";
    assert b[1..] == ". - x";
    assert LeadingDigits(b) == 1;
    assert b[2..] == " - x" && LeadingSpace(" - x") == 1;
  }

  lemma TrimExample()
    ensures Trim("- x") == "- x"
  {
    var m := "- x";
    assert m[0] == '-' && m[|m| - 1] == 'x';
    TrimUnpadded(m);
  }

  /** A bullet is removed before a number, so `- 1. x` loses both markers. */
  lemma BulletThenNumberLosesBoth()
    ensures Cleaned("- 1. x") == "x"
  {
    StripBulletExample();
    StripNumberExample();
    TrimUnpadded("x");
  }

  /** A number is looked for only after the bullet step, so `1. - x` keeps its bullet. */
  lemma NumberThenBulletKeepsBullet()
    ensures Cleaned("1. - x") == "- x"
  {
    StripBulletSkipsNumber();
    StripNumberKeepsBullet();
    TrimExample();
  }

  // ------------------------------------------------------------ name and memo

  const Separators: seq<char> := ['。', ':', '：']

  /** `sep` is usable in `cleaned` when it first occurs after the first character and before position 30. */
  predicate Usable(cleaned: string, sep: char)
  {
    0 < IndexOf(cleaned, sep) < 30
  }

  function UsableIn(cleaned: string): char -> bool
  {
    sep => Usable(cleaned, sep)
  }

  /**
   * The split the separator loop makes: at the first occurrence of the first separator, in list
   * order, that is usable; with none usable the whole text is the name.
   */
  function Split(cleaned: string): (nm: (string, string))
    ensures nm != (cleaned, "") ==> |nm.0| < 30
    ensures (forall k :: 0 <= k < |Separators| ==> !Usable(cleaned, Separators[k])) ==> nm == (cleaned, "")
  {
    var k := IndexWhere(Separators, UsableIn(cleaned));
    if k == -1 then (cleaned, "")
    else
      var idx := IndexOf(cleaned, Separators[k]);
      (Trim(cleaned[..idx]), Trim(cleaned[idx + 1..]))
  }

  /** The split at the first usable separator `k`, taken at that separator's first occurrence. */
  lemma SplitAt(cleaned: string, k: nat, idx: nat)
    requires k < |Separators| && Usable(cleaned, Separators[k])
    requires forall j :: 0 <= j < k ==> !Usable(cleaned, Separators[j])
    requires idx == IndexOf(cleaned, Separators[k])
    ensures Split(cleaned) == (Trim(cleaned[..idx]), Trim(cleaned[idx + 1..]))
  {
    var p := UsableIn(cleaned);
    forall j | 0 <= j < k
      ensures !p(Separators[j])
    {
    }
    IndexWhereFirst(Separators, p, k);
    SplitFromIndex(cleaned, k);
  }

  /** `Split` unfolded once its separator index is known. */
  lemma SplitFromIndex(cleaned: string, k: nat)
    requires k < |Separators| && IndexWhere(Separators, UsableIn(cleaned)) == k
    ensures 0 <= IndexOf(cleaned, Separators[k]) < |cleaned|
    ensures var idx := IndexOf(cleaned, Separators[k]);
      Split(cleaned) == (Trim(cleaned[..idx]), Trim(cleaned[idx + 1..]))
  {
  }

  /**
   * Where a split happens: separator `k` is the first usable one and `idx` its first
   * occurrence; the name comes from the text before it and the memo from the text after it.
   */
  lemma SplitPoint(cleaned: string) returns (k: nat, idx: nat)
    requires exists j :: 0 <= j < |Separators| && Usable(cleaned, Separators[j])
    ensures k < |Separators| && 0 < idx < 30 && idx < |cleaned|
    ensures forall j :: 0 <= j < k ==> !Usable(cleaned, Separators[j])
    ensures cleaned[idx] == Separators[k] && Separators[k] !in cleaned[..idx]
    ensures Split(cleaned) == (Trim(cleaned[..idx]), Trim(cleaned[idx + 1..]))
  {
    var j :| 0 <= j < |Separators| && Usable(cleaned, Separators[j]);
    var p := UsableIn(cleaned);
    assert p(Separators[j]);
    var w := IndexWhere(Separators, p);
    k := w;
    assert p(Separators[k]);
    forall i | 0 <= i < k
      ensures !Usable(cleaned, Separators[i])
    {
      assert !p(Separators[i]);
    }
    idx := IndexOf(cleaned, Separators[k]);
    SplitAt(cleaned, k, idx);
  }

  /**
   * The separator loop: for each separator in order, take its first index and, when usable,
   * split there and stop.
   */
  method SplitNameMemo(cleaned: string) returns (name: string, memo: string)
    ensures (name, memo) == Split(cleaned)
  {
    name, memo := cleaned, "";
    var k := 0;
    while k < |Separators|
      invariant 0 <= k <= |Separators|
      invariant forall j :: 0 <= j < k ==> !Usable(cleaned, Separators[j])
      invariant name == cleaned && memo == ""
      decreases |Separators| - k
    {
      var sep := Separators[k];
      var idx := IndexOf(cleaned, sep);
      if idx > 0 && idx < 30 {
        name := Trim(cleaned[..idx]);
        memo := Trim(cleaned[idx + 1..]);
        SplitAt(cleaned, k, idx);
        return;
      }
      k := k + 1;
    }
  }

  /** `name.length > 30 && !memo`: the name is cut to 27 characters plus `...` and kept whole in the memo. */
  function Shorten(name: string, memo: string): (nm: (string, string))
    ensures |name| > 30 && memo == "" ==> nm == (name[..27] + "...", name)
    ensures !(|name| > 30 && memo == "") ==> nm == (name, memo)
  {
    if |name| > 30 && memo == "" then (name[..27] + "...", name) else (name, memo)
  }

  /** One line's record before the id: name and memo of the cleaned line. */
  function ParsedLine(line: string): (nm: (string, string))
  {
    var (name, memo) := Split(Cleaned(line));
    Shorten(name, memo)
  }

  /** Every parsed name fits in 30 characters; a shortened one keeps the full text in its memo. */
  lemma ParsedNameFits(line: string)
    ensures |ParsedLine(line).0| <= 30
    ensures ParsedLine(line).0 != Split(Cleaned(line)).0 ==>
              ParsedLine(line).1 == Cleaned(line) && ParsedLine(line).0 == Cleaned(line)[..27] + "..."
  {
  }

  /** A line with no usable separator keeps all of its cleaned text, in the name or, when long, in the memo. */
  lemma UnsplitLineKeepsText(line: string)
    requires forall k :: 0 <= k < |Separators| ==> !Usable(Cleaned(line), Separators[k])
    ensures ParsedLine(line) == if |Cleaned(line)| > 30 then (Cleaned(line)[..27] + "...", Cleaned(line)) else (Cleaned(line), "")
  {
  }

  /** `tags[0] || ''`. */
  function DefaultTag(tags: seq<string>): string
  {
    if |tags| > 0 then tags[0] else ""
  }

  /** The record of one line, given how a line is parsed. */
  function Record(parse: string -> (string, string), line: string, tag: string, tid: int): Tasks.Extracted
  {
    Tasks.Extracted(parse(line).0, tag, parse(line).1, tid)
  }

  /** The records of `lines`, the `i`th with `tid = now + i`. */
  function Records(parse: string -> (string, string), lines: seq<string>, tag: string, now: int): (r: seq<Tasks.Extracted>)
    ensures |r| == |lines|
  {
    if |lines| == 0 then []
    else Records(parse, lines[..|lines| - 1], tag, now) + [Record(parse, lines[|lines| - 1], tag, now + |lines| - 1)]
  }

  lemma {:induction false} RecordsAt(parse: string -> (string, string), lines: seq<string>, tag: string, now: int, i: nat)
    requires i < |lines|
    ensures Records(parse, lines, tag, now)[i] == Record(parse, lines[i], tag, now + i)
  {
    var n := |lines| - 1;
    if i < n {
      RecordsAt(parse, lines[..n], tag, now, i);
    }
  }

  lemma RecordsSnoc(parse: string -> (string, string), lines: seq<string>, line: string, tag: string, now: int)
    ensures Records(parse, lines + [line], tag, now) == Records(parse, lines, tag, now) + [Record(parse, line, tag, now + |lines|)]
  {
    assert (lines + [line])[..|lines|] == lines;
  }

  /** The fallback's result: one record per non-blank line, with the first tag. */
  function Fallback(input: string, tags: seq<string>, now: int): (r: seq<Tasks.Extracted>)
    ensures |r| == |Lines(input)|
  {
    Records(ParsedLine, Lines(input), DefaultTag(tags), now)
  }

  /**
   * The `i`th record comes from the `i`th non-blank line: its name and memo are that line's,
   * its tag is the first tag (or empty), its `tid` is `now + i`, and its name fits in 30 characters.
   */
  lemma FallbackAt(input: string, tags: seq<string>, now: int, i: nat)
    requires i < |Lines(input)|
    ensures var e := Fallback(input, tags, now)[i];
      (e.name, e.memo) == ParsedLine(Lines(input)[i]) && e.tag == DefaultTag(tags) && e.tid == now + i
      && |e.name| <= 30
  {
    RecordsAt(ParsedLine, Lines(input), DefaultTag(tags), now, i);
    ParsedNameFits(Lines(input)[i]);
  }

  /** One line of `lines.map(...)`: clean, run the separator loop, shorten. */
  method ParseLine(line: string) returns (name: string, memo: string)
    ensures (name, memo) == ParsedLine(line)
  {
    var cleaned := Cleaned(line);
    name, memo := SplitNameMemo(cleaned);
    if |name| > 30 && memo == "" {
      memo := name;
      name := name[..27] + "...";
    }
  }

  /** `lines.map(...)`: one record per line, in order, each parsed by `parse`. */
  method ExtractLines(parse: string -> (string, string), lines: seq<string>, tag: string, now: int) returns (r: seq<Tasks.Extracted>)
    ensures r == Records(parse, lines, tag, now)
  {
    r := [];
    var i := 0;
    while i < |lines|
      invariant 0 <= i <= |lines|
      invariant r == Records(parse, lines[..i], tag, now)
    {
      var nm := parse(lines[i]);
      RecordsSnoc(parse, lines[..i], lines[i], tag, now);
      assert lines[..i + 1] == lines[..i] + [lines[i]];
      r := r + [Tasks.Extracted(nm.0, tag, nm.1, now + i)];
      i := i + 1;
    }
    assert lines[..i] == lines;
  }

  /** The fallback branch of `extractTasks`: the non-blank lines of the input, each made a record. */
  method FallbackExtract(input: string, tags: seq<string>, now: int) returns (r: seq<Tasks.Extracted>)
    ensures r == Fallback(input, tags, now)
  {
    r := ExtractLines(ParsedLine, Lines(input), DefaultTag(tags), now);
  }
}
