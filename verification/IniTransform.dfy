/** Rewriting the launcher's override_config.ini so that one section reads as wanted
    (companion/album_restriction.c, ptc_album_restriction_transform_ini). Characters are bytes. */
module IniTransform {
  import opened Wrappers

  const LF: string := "\n"
  const CRLF: string := "\r\n"
  const BOM: string := [0xEF as char, 0xBB as char, 0xBF as char]
  const WANTED: string := "[hbl_config]"
  const SECTION: seq<string> := [
    "[hbl_config]", "override_any_app=false", "program_id_0=0100000000001003",
    "override_key_0=X", "override_address_space=39_bit"]
  /** The size of the section's text with its terminating NUL. */
  const SECTION_SIZE: nat := 12 + 22 + 29 + 16 + 29 + 5 + 1

  // ---- Lines ----

  function LineLength(t: string): (n: nat)
    ensures n <= |t| && (t != "" ==> n > 0)
  {
    if t == "" then 0 else if t[0] == '\n' then 1 else 1 + LineLength(t[1..])
  }

  /** The lines of a text, each with its newline. */
  function Lines(t: string): seq<string> {
    if t == "" then [] else [t[..LineLength(t)]] + Lines(t[LineLength(t)..])
  }

  function Join(lines: seq<string>): string {
    if lines == [] then "" else lines[0] + Join(lines[1..])
  }

  predicate IsBlank(c: char) {
    c == ' ' || c == '\t'
  }

  function Unindented(line: string): (s: string)
    ensures |s| <= |line|
  {
    if line != "" && IsBlank(line[0]) then Unindented(line[1..]) else line
  }

  /** The part before the first CR or LF. */
  function Trimmed(line: string): (s: string)
    ensures |s| <= |line|
  {
    if line == "" || line[0] == '\r' || line[0] == '\n' then "" else [line[0]] + Trimmed(line[1..])
  }

  datatype Header = NoHeader | Malformed | Section(wanted: bool)

  /** What a line says about the section that follows. */
  function HeaderOf(line: string): Header {
    var s := Trimmed(Unindented(line));
    if s == "" || s[0] != '[' then NoHeader
    else if ']' !in s then Malformed
    else Section(WANTED <= s)
  }

  /** The lines outside the wanted section, given whether the first of them stands inside it;
      nothing when some header is never closed. */
  function KeptLines(lines: seq<string>, skipping: bool): Option<seq<string>> {
    if lines == [] then Some([])
    else
      var h := HeaderOf(lines[0]);
      var skip := if h.Section? then h.wanted else skipping;
      if h.Malformed? then None
      else
        match KeptLines(lines[1..], skip)
        case None => None
        case Some(rest) => Some(if skip then rest else [lines[0]] + rest)
  }

  predicate HasCrlf(t: string) {
    exists i :: 0 <= i < |t| - 1 && t[i] == '\r' && t[i + 1] == '\n'
  }

  function Newline(t: string): string {
    if HasCrlf(t) then CRLF else LF
  }

  predicate HasBom(t: string) {
    BOM <= t
  }

  function AfterBom(t: string): string {
    if HasBom(t) then t[3..] else t
  }

  function Terminated(body: string, newline: string): string {
    if body != "" && body[|body| - 1] != '\n' then body + newline else body
  }

  function SectionLines(newline: string, n: nat): seq<string>
    requires n <= 5
  {
    seq(n, i requires 0 <= i < n => SECTION[i] + newline)
  }

  function SectionText(newline: string): string {
    Join(SectionLines(newline, 5))
  }

  /** What is kept of a text: its byte-order mark and its lines outside the section. */
  function Body(t: string): Option<string> {
    match KeptLines(Lines(AfterBom(t)), false)
    case None => None
    case Some(kept) => Some((if HasBom(t) then BOM else "") + Join(kept))
  }

  /** The rewritten text, if it can be read and fits a buffer of the given size. */
  function Transformed(t: string, size: nat): Option<string> {
    match Body(t)
    case None => None
    case Some(body) =>
      var result := Terminated(body, Newline(t)) + SectionText(Newline(t));
      if size < SECTION_SIZE + 4 || |result| + 1 > size then None else Some(result)
  }

  // ---- The program ----

  method SkipBlanks(line: string) returns (p: nat)
    ensures p <= |line| && Unindented(line) == line[p..]
  {
    p := 0;
    while p < |line| && IsBlank(line[p])
      invariant 0 <= p <= |line| && Unindented(line) == Unindented(line[p..])
    {
      p := p + 1;
    }
  }

  method TrimEnd(line: string, p: nat) returns (end: nat)
    requires p <= |line|
    ensures p <= end <= |line| && Trimmed(line[p..]) == line[p..end]
  {
    hide Trimmed;
    end := p;
    assert line[p..p] == "" && "" + Trimmed(line[p..]) == Trimmed(line[p..]);
    while end < |line| && line[end] != '\r' && line[end] != '\n'
      invariant p <= end <= |line| && Trimmed(line[p..]) == line[p..end] + Trimmed(line[end..])
    {
      TrimStep(line, p, end);
      end := end + 1;
    }
    TrimmedAtEnd(line[end..]);
    assert line[p..end] + "" == line[p..end];
  }

  lemma TrimmedAtEnd(rest: string)
    requires rest == "" || rest[0] == '\r' || rest[0] == '\n'
    ensures Trimmed(rest) == ""
  {
  }

  lemma TrimStep(line: string, p: nat, end: nat)
    requires p <= end < |line| && line[end] != '\r' && line[end] != '\n'
    ensures line[p..end] + Trimmed(line[end..]) == line[p..end + 1] + Trimmed(line[end + 1..])
  {
    var rest := Trimmed(line[end + 1..]);
    assert line[end..][1..] == line[end + 1..];
    assert Trimmed(line[end..]) == [line[end]] + rest;
    assert line[p..end + 1] == line[p..end] + [line[end]];
    assert line[p..end] + ([line[end]] + rest) == line[p..end] + [line[end]] + rest;
  }

  lemma WantedClosesAtEleven(s: string, close: nat)
    requires close < |s| && s[close] == ']' && forall k | 0 <= k < close :: s[k] != ']'
    ensures WANTED <= s ==> close == 11
  {
    assert WANTED[11] == ']' && forall k | 0 <= k < 11 :: WANTED[k] != ']';
    assert WANTED <= s ==> forall k | 0 <= k < 12 :: s[k] == WANTED[k];
  }

  method ReadHeader(line: string) returns (h: Header)
    ensures h == HeaderOf(line)
  {
    hide Unindented, Trimmed;
    var p := SkipBlanks(line);
    var end := TrimEnd(line, p);
    var s := line[p..end];
    if p == end || s[0] != '[' {
      return NoHeader;
    }
    var close := 0;
    while close < |s| && s[close] != ']'
      invariant 0 <= close <= |s| && forall k | 0 <= k < close :: s[k] != ']'
    {
      close := close + 1;
    }
    if close == |s| {
      return Malformed;
    }
    WantedClosesAtEleven(s, close);
    h := Section(close == 11 && WANTED <= s);
  }

  lemma {:induction false} LineShape(t: string)
    requires t != ""
    ensures var n := LineLength(t);
            && (forall k | 0 <= k < n - 1 :: t[k] != '\n')
            && (n == |t| || t[n - 1] == '\n')
  {
    if t[0] != '\n' && |t| > 1 {
      LineShape(t[1..]);
    }
  }

  method LineEnd(t: string, cursor: nat) returns (end: nat)
    requires cursor < |t|
    ensures cursor < end <= |t| && end - cursor == LineLength(t[cursor..])
  {
    end := cursor;
    while end < |t| && t[end] != '\n'
      invariant cursor <= end <= |t| && LineLength(t[cursor..]) == end - cursor + LineLength(t[end..])
    {
      end := end + 1;
    }
    if end < |t| {
      end := end + 1;
    }
  }

  /** Copies the lines outside the section, line by line, as long as the buffer has room. */
  method CopyLines(t: string, mark: string, size: nat) returns (output: Option<string>)
    ensures output.Some? ==>
              KeptLines(Lines(t), false).Some? && output.value == mark + Join(KeptLines(Lines(t), false).value)
    ensures output.None? ==> match KeptLines(Lines(t), false)
                             case None => true
                             case Some(kept) => |mark + Join(kept)| + 1 > size
  {
    hide HeaderOf, Join, Lines, KeptLines, Ahead;
    var cursor, skipping, out := 0, false, mark;
    ghost var done: seq<string> := [];
    assert t[0..] == t;
    NothingCopied(mark, Lines(t));
    while cursor < |t|
      invariant 0 <= cursor <= |t| && out == mark + Join(done)
      invariant KeptLines(Lines(t), false) == Ahead(done, KeptLines(Lines(t[cursor..]), skipping))
    {
      var end := LineEnd(t, cursor);
      var line := t[cursor..end];
      ghost var rest := Lines(t[end..]);
      NextLine(t, cursor, end);
      NextKept(done, line, rest, skipping);
      var h := ReadHeader(line);
      if h.Malformed? {
        return None;
      }
      if h.Section? {
        skipping := h.wanted;
      }
      if !skipping {
        OneMoreCopied(mark, done, line, KeptLines(rest, skipping));
        if |out| + |line| + 1 > size {
          return None;
        }
        out := out + line;
        done := done + [line];
      }
      cursor := end;
    }
    AllCopied(done, t[cursor..], skipping);
    output := Some(out);
  }

  lemma NothingCopied(mark: string, lines: seq<string>)
    ensures mark + Join([]) == mark && Ahead([], KeptLines(lines, false)) == KeptLines(lines, false)
  {
    assert Join([]) == "";
    AheadNothing(KeptLines(lines, false));
  }

  lemma NextLine(t: string, cursor: nat, end: nat)
    requires cursor < end <= |t| && end - cursor == LineLength(t[cursor..])
    ensures Lines(t[cursor..]) == [t[cursor..end]] + Lines(t[end..])
  {
    assert t[cursor..][..end - cursor] == t[cursor..end] && t[cursor..][end - cursor..] == t[end..];
  }

  lemma NextKept(done: seq<string>, line: string, rest: seq<string>, skipping: bool)
    ensures var h := HeaderOf(line);
            var skip := if h.Section? then h.wanted else skipping;
            KeptLines([line] + rest, skipping) ==
              if h.Malformed? then None else if skip then KeptLines(rest, skip)
                else Ahead([line], KeptLines(rest, skip))
    ensures HeaderOf(line).Malformed? ==> Ahead(done, KeptLines([line] + rest, skipping)) == None
  {
    hide HeaderOf;
    assert ([line] + rest)[1..] == rest;
  }

  lemma OneMoreCopied(mark: string, done: seq<string>, line: string, rest: Option<seq<string>>)
    ensures Ahead(done, Ahead([line], rest)) == Ahead(done + [line], rest)
    ensures mark + Join(done) + line == mark + Join(done + [line])
    ensures Ahead(done + [line], rest).Some? ==> |Join(Ahead(done + [line], rest).value)| >= |Join(done + [line])|
  {
    hide Join;
    AheadTwice(done, [line], rest);
    JoinEnd(done, line);
    assert mark + Join(done) + line == mark + (Join(done) + line);
    if rest.Some? {
      JoinGrows(done + [line], rest.value);
    }
  }

  lemma AllCopied(done: seq<string>, rest: string, skipping: bool)
    requires rest == ""
    ensures Ahead(done, KeptLines(Lines(rest), skipping)) == Some(done)
  {
    assert done + [] == done;
  }

  function Ahead(done: seq<string>, rest: Option<seq<string>>): Option<seq<string>> {
    match rest
    case None => None
    case Some(more) => Some(done + more)
  }

  lemma AheadNothing(rest: Option<seq<string>>)
    ensures Ahead([], rest) == rest
  {
    assert rest.Some? ==> [] + rest.value == rest.value;
  }

  lemma AheadTwice(a: seq<string>, b: seq<string>, rest: Option<seq<string>>)
    ensures Ahead(a, Ahead(b, rest)) == Ahead(a + b, rest)
  {
    if rest.Some? {
      assert a + (b + rest.value) == a + b + rest.value;
    }
  }

  lemma {:induction false} JoinBoth(a: seq<string>, b: seq<string>)
    ensures Join(a + b) == Join(a) + Join(b)
  {
    if a == [] {
      assert a + b == b;
      assert "" + Join(b) == Join(b);
    } else {
      assert (a + b)[1..] == a[1..] + b;
      JoinBoth(a[1..], b);
      assert a[0] + (Join(a[1..]) + Join(b)) == a[0] + Join(a[1..]) + Join(b);
    }
  }

  lemma JoinEnd(a: seq<string>, line: string)
    ensures Join(a + [line]) == Join(a) + line
  {
    JoinBoth(a, [line]);
    assert Join([line]) == line + Join([]) == line;
  }

  lemma JoinGrows(a: seq<string>, b: seq<string>)
    ensures |Join(a + b)| >= |Join(a)|
  {
    JoinBoth(a, b);
  }

  method TransformIni(t: string, size: nat) returns (output: Option<string>)
    ensures output == Transformed(t, size)
  {
    hide SectionText, Join, KeptLines, Lines, HasCrlf, HasBom, AfterBom;
    var newline := if HasCrlf(t) then CRLF else LF;
    if size < SECTION_SIZE + 4 {
      return None;
    }
    var mark := "";
    if HasBom(t) {
      mark := BOM;
    }
    var copied := CopyLines(AfterBom(t), mark, size);
    if copied.None? {
      return None;
    }
    var out := copied.value;
    if out != "" && out[|out| - 1] != '\n' {
      if |out| + |newline| + 1 > size {
        return None;
      }
      out := out + newline;
    }
    output := AppendSection(out, newline, size);
  }

  method AppendSection(body: string, newline: string, size: nat) returns (output: Option<string>)
    ensures output == if |body + SectionText(newline)| + 1 > size then None else Some(body + SectionText(newline))
  {
    hide Join, SectionLines;
    var out := body;
    NoSection(body, newline);
    for k := 0 to 5
      invariant out == body + Join(SectionLines(newline, k))
      invariant k > 0 ==> |out| + 1 <= size
    {
      var line := SECTION[k] + newline;
      SectionGrows(body, newline, k);
      if |out| + |line| + 1 > size {
        return None;
      }
      out := out + line;
    }
    output := Some(out);
  }

  lemma NoSection(body: string, newline: string)
    ensures body + Join(SectionLines(newline, 0)) == body
  {
    assert SectionLines(newline, 0) == [];
  }

  lemma SectionGrows(body: string, newline: string, k: nat)
    requires k < 5
    ensures body + Join(SectionLines(newline, k)) + (SECTION[k] + newline) == body + Join(SectionLines(newline, k + 1))
    ensures |Join(SectionLines(newline, k + 1))| <= |SectionText(newline)|
  {
    hide Join;
    var line := SECTION[k] + newline;
    assert SectionLines(newline, k + 1) == SectionLines(newline, k) + [line];
    JoinEnd(SectionLines(newline, k), line);
    assert SectionLines(newline, 5) == SectionLines(newline, k + 1) + SectionLines(newline, 5)[k + 1..];
    JoinGrows(SectionLines(newline, k + 1), SectionLines(newline, 5)[k + 1..]);
  }

  // ---- Lines and what is kept of them ----

  predicate IsLine(l: string) {
    l != "" && forall k | 0 <= k < |l| - 1 :: l[k] != '\n'
  }

  predicate Complete(l: string) {
    IsLine(l) && l[|l| - 1] == '\n'
  }

  predicate Proper(lines: seq<string>) {
    && (forall i | 0 <= i < |lines| :: IsLine(lines[i]))
    && (forall i | 0 <= i < |lines| - 1 :: Complete(lines[i]))
  }

  lemma {:induction false} LengthOfLine(l: string, rest: string)
    requires IsLine(l) && (Complete(l) || rest == "")
    ensures LineLength(l + rest) == |l|
  {
    assert (l + rest)[1..] == l[1..] + rest;
    if |l| > 1 {
      LengthOfLine(l[1..], rest);
    } else {
      assert l[1..] + rest == rest;
    }
  }

  lemma {:induction false} LinesOfJoin(lines: seq<string>)
    requires Proper(lines)
    ensures Lines(Join(lines)) == lines
  {
    if lines != [] {
      var l, rest := lines[0], lines[1..];
      forall i | 0 <= i < |rest| ensures IsLine(rest[i]) && (i < |rest| - 1 ==> Complete(rest[i])) {
        assert rest[i] == lines[i + 1];
      }
      LinesOfJoin(rest);
      assert rest == [] ==> Join(rest) == "";
      LengthOfLine(l, Join(rest));
      assert (l + Join(rest))[..|l|] == l && (l + Join(rest))[|l|..] == Join(rest);
      assert lines == [l] + rest;
    }
  }

  lemma ProperInFront(l: string, rest: seq<string>)
    requires IsLine(l) && Proper(rest) && (rest != [] ==> Complete(l))
    ensures Proper([l] + rest)
  {
    hide IsLine, Complete;
    forall i | 1 <= i < |[l] + rest| ensures ([l] + rest)[i] == rest[i - 1] {
    }
  }

  lemma FirstLine(t: string)
    requires t != ""
    ensures var n := LineLength(t); IsLine(t[..n]) && (t[n..] != "" ==> Complete(t[..n]))
  {
    LineShape(t);
  }

  lemma {:induction false} LinesAreProper(t: string)
    ensures Proper(Lines(t)) && Join(Lines(t)) == t
    decreases |t|
  {
    if t != "" {
      hide IsLine, Complete, Proper, LineLength, Join, Lines;
      var n := LineLength(t);
      var l, rest := t[..n], Lines(t[n..]);
      FirstLine(t);
      LinesAreProper(t[n..]);
      SplitLine(t);
      JoinFront(l, rest);
      ProperInFront(l, rest);
    }
  }

  lemma SplitLine(t: string)
    requires t != ""
    ensures var n := LineLength(t);
            && Lines(t) == [t[..n]] + Lines(t[n..]) && t == t[..n] + t[n..]
            && (Lines(t[n..]) != [] ==> t[n..] != "")
  {
  }

  lemma JoinFront(line: string, rest: seq<string>)
    ensures Join([line] + rest) == line + Join(rest)
  {
    assert ([line] + rest)[1..] == rest;
  }

  /** Whether line `n` stands in the wanted section: what the last header up to it says. */
  predicate Inside(lines: seq<string>, n: nat)
    requires n < |lines|
  {
    match HeaderOf(lines[n])
    case Section(wanted) => wanted
    case _ => n > 0 && Inside(lines, n - 1)
  }

  function Outside(lines: seq<string>, n: nat): seq<string>
    requires n <= |lines|
  {
    if n == 0 then [] else Outside(lines, n - 1) + (if Inside(lines, n - 1) then [] else [lines[n - 1]])
  }

  /** Every line outside the section is kept, unchanged and in order, and no other. */
  lemma {:induction false} KeptIsOutside(lines: seq<string>, n: nat)
    requires n <= |lines| && KeptLines(lines, false).Some?
    ensures KeptLines(lines, false) == Ahead(Outside(lines, n), KeptLines(lines[n..], n > 0 && Inside(lines, n - 1)))
  {
    if n == 0 {
      assert lines[0..] == lines;
      AheadNothing(KeptLines(lines, false));
    } else {
      KeptIsOutside(lines, n - 1);
      var line, rest := lines[n - 1], KeptLines(lines[n..], Inside(lines, n - 1));
      assert lines[n - 1..][0] == line && lines[n - 1..][1..] == lines[n..];
      if Inside(lines, n - 1) {
        assert Outside(lines, n) == Outside(lines, n - 1);
      } else {
        AheadTwice(Outside(lines, n - 1), [line], rest);
      }
    }
  }

  lemma OutsideIsKept(t: string, size: nat)
    requires Transformed(t, size).Some?
    ensures var lines, newline := Lines(AfterBom(t)), Newline(t);
            var body := (if HasBom(t) then BOM else "") + Join(Outside(lines, |lines|));
            Transformed(t, size) == Some(Terminated(body, newline) + SectionText(newline))
  {
    var lines := Lines(AfterBom(t));
    KeptIsOutside(lines, |lines|);
    assert lines[|lines|..] == [];
    assert Outside(lines, |lines|) + [] == Outside(lines, |lines|);
  }

  // ---- Idempotence ----

  /** A line that a second pass keeps: no header, or another section's. */
  predicate Neutral(l: string) {
    HeaderOf(l).NoHeader? || HeaderOf(l) == Section(false)
  }

  predicate IsNewline(newline: string) {
    newline == LF || newline == CRLF
  }

  lemma {:induction false} KeptShape(lines: seq<string>, skipping: bool)
    requires Proper(lines) && KeptLines(lines, skipping).Some?
    ensures var kept := KeptLines(lines, skipping).value;
            && Proper(kept)
            && (forall i | 0 <= i < |kept| :: kept[i] in lines)
            && (forall i | 0 <= i < |kept| :: Neutral(kept[i]))
  {
    hide HeaderOf, IsLine, Complete;
    if lines != [] {
      var l, rest, h := lines[0], lines[1..], HeaderOf(lines[0]);
      forall i | 0 <= i < |rest| ensures IsLine(rest[i]) && (i < |rest| - 1 ==> Complete(rest[i])) {
        assert rest[i] == lines[i + 1];
      }
      var skip := if h.Section? then h.wanted else skipping;
      KeptShape(rest, skip);
      var more := KeptLines(rest, skip).value;
      if !skip {
        assert more != [] ==> rest != [];
        forall i | 0 <= i < |[l] + more|
          ensures ([l] + more)[i] in lines && Neutral(([l] + more)[i]) && IsLine(([l] + more)[i])
          ensures i < |[l] + more| - 1 ==> Complete(([l] + more)[i])
        {
          if i > 0 {
            assert ([l] + more)[i] == more[i - 1];
            assert more[i - 1] in rest;
          }
        }
      }
    }
  }

  lemma {:induction false} KeepsNeutral(kept: seq<string>, tail: seq<string>)
    requires forall i | 0 <= i < |kept| :: Neutral(kept[i])
    ensures KeptLines(kept + tail, false) == Ahead(kept, KeptLines(tail, false))
  {
    hide HeaderOf, KeptLines, Ahead;
    if kept == [] {
      assert kept + tail == tail;
      AheadNothing(KeptLines(tail, false));
    } else {
      var l, rest := kept[0], kept[1..];
      forall i | 0 <= i < |rest| ensures Neutral(rest[i]) {
        assert rest[i] == kept[i + 1];
      }
      KeepsNeutral(rest, tail);
      assert kept + tail == [l] + (rest + tail);
      assert Neutral(l);
      NextKept([], l, rest + tail, false);
      AheadTwice([l], rest, KeptLines(tail, false));
      assert [l] + rest == kept;
    }
  }

  lemma {:induction false} TrimmedLine(l: string, newline: string)
    requires IsNewline(newline)
    ensures Trimmed(l + newline) == Trimmed(l)
  {
    if l == "" {
      assert l + newline == newline;
    } else {
      assert (l + newline)[1..] == l[1..] + newline;
      TrimmedLine(l[1..], newline);
    }
  }

  lemma {:induction false} UnindentedLine(l: string, newline: string)
    requires IsNewline(newline)
    ensures Unindented(l + newline) == Unindented(l) + newline
  {
    var whole := l + newline;
    if l == "" {
      assert whole == newline == Unindented(l) + newline;
      assert newline[0] == '\n' || newline[0] == '\r';
      assert Unindented(whole) == whole;
    } else if IsBlank(l[0]) {
      assert whole[1..] == l[1..] + newline && whole[0] == l[0];
      UnindentedLine(l[1..], newline);
      assert Unindented(whole) == Unindented(whole[1..]);
      assert Unindented(l) == Unindented(l[1..]);
    } else {
      assert whole[0] == l[0];
      assert Unindented(whole) == whole && Unindented(l) == l;
    }
  }

  /** Ending a line does not change what it says. */
  lemma HeaderOfEnded(l: string, newline: string)
    requires IsNewline(newline)
    ensures HeaderOf(l + newline) == HeaderOf(l)
  {
    UnindentedLine(l, newline);
    TrimmedLine(Unindented(l), newline);
  }

  lemma {:induction false} TrimmedClean(l: string)
    requires forall k | 0 <= k < |l| :: l[k] != '\r' && l[k] != '\n'
    ensures Trimmed(l) == l
  {
    if l != "" {
      TrimmedClean(l[1..]);
    }
  }

  /** The section's text without its newlines holds printable characters only. */
  lemma SectionIsClean(k: nat)
    requires k < 5
    ensures SECTION[k] != "" && !IsBlank(SECTION[k][0])
    ensures forall i | 0 <= i < |SECTION[k]| :: SECTION[k][i] != '\r' && SECTION[k][i] != '\n'
    ensures k == 0 ==> SECTION[k] == WANTED
    ensures k > 0 ==> SECTION[k][0] != '['
  {
    if k == 0 {
      assert Clean("[hbl_config]");
    } else if k == 1 {
      assert Clean("override_any_app=false");
    } else if k == 2 {
      assert Clean("program_id_0=0100000000001003");
    } else if k == 3 {
      assert Clean("override_key_0=X");
    } else {
      assert Clean("override_address_space=39_bit");
    }
  }

  predicate Clean(l: string) {
    l != "" && !IsBlank(l[0]) && forall i | 0 <= i < |l| :: l[i] != '\r' && l[i] != '\n'
  }

  /** A clean line says what it looks like. */
  lemma HeaderOfClean(l: string, newline: string)
    requires Clean(l) && IsNewline(newline)
    ensures HeaderOf(l + newline) == if l[0] != '[' then NoHeader else if ']' !in l then Malformed
            else Section(WANTED <= l)
    ensures Complete(l + newline)
  {
    HeaderOfEnded(l, newline);
    TrimmedClean(l);
    assert Unindented(l) == l;
  }

  lemma SectionHeaders(k: nat, newline: string)
    requires k < 5 && IsNewline(newline)
    ensures HeaderOf(SECTION[k] + newline) == if k == 0 then Section(true) else NoHeader
    ensures Complete(SECTION[k] + newline)
  {
    hide HeaderOf, Complete;
    SectionIsClean(k);
    HeaderOfClean(SECTION[k], newline);
    assert WANTED[11] == ']';
  }

  lemma {:induction false} SectionIsDropped(newline: string, n: nat)
    requires n <= 5 && IsNewline(newline)
    ensures KeptLines(SectionLines(newline, 5)[n..], n > 0) == Some([])
    decreases 5 - n
  {
    hide HeaderOf;
    var rest := SectionLines(newline, 5)[n..];
    if n < 5 {
      SectionHeaders(n, newline);
      SectionIsDropped(newline, n + 1);
      assert rest[0] == SECTION[n] + newline && rest[1..] == SectionLines(newline, 5)[n + 1..];
    }
  }

  /** The kept lines with the last of them completed. */
  function Completed(kept: seq<string>, mark: string, newline: string): seq<string> {
    if kept == [] then (if mark == "" then [] else [newline])
    else
      var last := kept[|kept| - 1];
      if last != "" && last[|last| - 1] == '\n' then kept else kept[..|kept| - 1] + [last + newline]
  }

  lemma CompletedShape(kept: seq<string>, mark: string, newline: string)
    requires Proper(kept) && (forall i | 0 <= i < |kept| :: Neutral(kept[i])) && IsNewline(newline)
    requires mark == "" || mark == BOM
    ensures var c := Completed(kept, mark, newline);
            && (forall i | 0 <= i < |c| :: Complete(c[i]) && Neutral(c[i]))
            && Terminated(mark + Join(kept), newline) == mark + Join(c)
  {
    hide HeaderOf, Join, Complete, IsLine;
    if kept == [] {
      NewlineIsNeutral(newline);
      NothingKept(mark, newline);
    } else {
      var init, last := kept[..|kept| - 1], kept[|kept| - 1];
      assert kept == init + [last];
      LastCompleted(last, newline);
      JoinEnd(init, last);
      JoinEnd(init, last + newline);
      assert mark + (Join(init) + last) == (mark + Join(init)) + last;
      assert mark + (Join(init) + (last + newline)) == mark + (Join(init) + last) + newline;
      LastByte(mark + Join(init), last);
    }
  }

  lemma LastByte(a: string, b: string)
    requires b != ""
    ensures a + b != "" && (a + b)[|a + b| - 1] == b[|b| - 1]
  {
  }

  lemma NothingKept(mark: string, newline: string)
    requires (mark == "" || mark == BOM) && IsNewline(newline)
    ensures Terminated(mark + Join([]), newline) == mark + (if mark == "" then Join([]) else Join([newline]))
  {
    assert mark + Join([]) == mark;
    assert Join([newline]) == newline + Join([]) == newline;
  }

  lemma LastCompleted(last: string, newline: string)
    requires IsLine(last) && Neutral(last) && IsNewline(newline)
    ensures last != "" && (last[|last| - 1] == '\n' ==> Complete(last))
    ensures last[|last| - 1] != '\n' ==> Complete(last + newline) && Neutral(last + newline)
  {
    HeaderOfEnded(last, newline);
  }

  lemma NewlineIsNeutral(newline: string)
    requires IsNewline(newline)
    ensures Neutral(newline) && Complete(newline)
  {
    HeaderOfEnded("", newline);
    assert "" + newline == newline;
  }

  /** The kept lines of the rewritten text are the completed kept lines of the original. */
  lemma SecondPassKeeps(kept: seq<string>, mark: string, newline: string)
    requires Proper(kept) && (forall i | 0 <= i < |kept| :: Neutral(kept[i])) && IsNewline(newline)
    requires mark == "" || mark == BOM
    ensures var c := Completed(kept, mark, newline);
            KeptLines(Lines(Join(c) + SectionText(newline)), false) == Some(c)
  {
    hide HeaderOf, Neutral, Complete, Lines, Join, KeptLines, Completed, Proper;
    var c, section := Completed(kept, mark, newline), SectionLines(newline, 5);
    CompletedShape(kept, mark, newline);
    SectionIsComplete(newline);
    CompleteIsProper(c, section);
    JoinBoth(c, section);
    LinesOfJoin(c + section);
    KeepsNeutral(c, section);
    SectionIsDropped(newline, 0);
    assert section[0..] == section && c + [] == c;
    AheadLast(c);
  }

  lemma AheadLast(c: seq<string>)
    ensures Ahead(c, Some([])) == Some(c)
  {
    assert c + [] == c;
  }

  lemma SectionIsComplete(newline: string)
    requires IsNewline(newline)
    ensures forall i | 0 <= i < 5 :: Complete(SectionLines(newline, 5)[i])
  {
    hide Complete;
    forall i | 0 <= i < 5 ensures Complete(SectionLines(newline, 5)[i]) {
      SectionHeaders(i, newline);
    }
  }

  lemma CompleteIsProper(a: seq<string>, b: seq<string>)
    requires (forall i | 0 <= i < |a| :: Complete(a[i])) && (forall i | 0 <= i < |b| :: Complete(b[i]))
    ensures Proper(a + b)
  {
    hide Complete, IsLine;
    forall i | 0 <= i < |a + b| ensures IsLine((a + b)[i]) && Complete((a + b)[i]) {
      assert (a + b)[i] == if i < |a| then a[i] else b[i - |a|];
      CompleteIsLine((a + b)[i]);
    }
  }

  lemma CompleteIsLine(l: string)
    requires Complete(l)
    ensures IsLine(l)
  {
  }

  // ---- The byte-order mark ----

  /** The first kept line is the first line, or it opens with a header. */
  lemma {:induction false} FirstKept(lines: seq<string>, skipping: bool)
    requires KeptLines(lines, skipping).Some? && KeptLines(lines, skipping).value != []
    requires forall i | 0 <= i < |lines| :: lines[i] != ""
    ensures var l := KeptLines(lines, skipping).value[0];
            l != "" && ((!skipping && l == lines[0]) || l[0] == '[' || IsBlank(l[0]))
  {
    var h := HeaderOf(lines[0]);
    var skip := if h.Section? then h.wanted else skipping;
    if skip {
      FirstKept(lines[1..], true);
    }
  }

  /** A rewritten text opens with a byte-order mark only if the original did. */
  lemma NoNewMark(t: string, kept: seq<string>, newline: string)
    requires !HasBom(t) && KeptLines(Lines(t), false) == Some(kept) && IsNewline(newline)
    ensures !HasBom(Join(Completed(kept, "", newline)) + SectionText(newline))
  {
    hide HeaderOf, HasBom, Join, SectionText, Neutral, Complete, Completed;
    LinesAreProper(t);
    KeptShape(Lines(t), false);
    if kept == [] {
      SectionHasNoBom(newline);
      NothingCompleted(newline);
      NothingJoined(SectionText(newline));
    } else {
      FirstKept(Lines(t), false);
      FirstCompleted(kept, newline);
      var c := Completed(kept, "", newline);
      JoinFirst(c, SectionText(newline));
      FirstOfText(t, kept[0], Join(c) + SectionText(newline), newline);
    }
  }

  lemma SectionHasNoBom(newline: string)
    ensures !HasBom(SectionText(newline))
  {
    hide Join;
    var lines := SectionLines(newline, 5);
    assert lines[0] == SECTION[0] + newline;
    JoinFirst(lines, "");
    assert SECTION[0][0] == '[' && lines[0][0] == '[';
    assert Join(lines) + "" == Join(lines);
    assert Join(lines)[0] == lines[0][0];
    assert BOM[0] != '[';
  }

  lemma NothingCompleted(newline: string)
    ensures Completed([], "", newline) == []
  {
  }

  lemma NothingJoined(text: string)
    ensures Join([]) + text == text
  {
  }

  lemma JoinFirst(lines: seq<string>, more: string)
    requires lines != []
    ensures lines[0] <= Join(lines) + more
  {
    assert Join(lines) + more == lines[0] + (Join(lines[1..]) + more);
  }

  /** Completing the last line changes the first only if it is the last. */
  lemma FirstCompleted(kept: seq<string>, newline: string)
    requires kept != [] && Proper(kept) && IsNewline(newline)
    ensures var c := Completed(kept, "", newline);
            c != [] && (c[0] == kept[0] || c[0] == kept[0] + newline)
              && (Complete(kept[0]) || kept[0] + newline <= c[0])
  {
  }

  lemma FirstOfText(t: string, l: string, y: string, newline: string)
    requires l != "" && IsNewline(newline) && IsLine(l) && l <= y
    requires (t != "" && l == Lines(t)[0]) || l[0] == '[' || IsBlank(l[0])
    requires Complete(l) || l + newline <= y
    ensures HasBom(y) ==> HasBom(t)
  {
    assert forall k | 0 <= k < 3 :: BOM[k] != '\n' && BOM[k] != '\r' && BOM[k] != '[' && !IsBlank(BOM[k]);
    assert y[0] == l[0];
    assert HasBom(y) ==> forall k | 0 <= k < 3 :: y[k] == BOM[k];
    assert forall k | 0 <= k < |l| :: y[k] == l[k];
    assert !Complete(l) ==> y[|l|] == (l + newline)[|l|] && newline[0] in {'\r', '\n'};
    assert |l| < 3 ==> !HasBom(y);
    assert t != "" ==> Lines(t)[0] <= t;
  }

  // ---- The newline ----

  lemma {:induction false} CrlfInALine(lines: seq<string>)
    requires forall i | 0 <= i < |lines| :: Complete(lines[i])
    ensures HasCrlf(Join(lines)) <==> exists i | 0 <= i < |lines| :: HasCrlf(lines[i])
  {
    if lines != [] {
      var l, rest := lines[0], lines[1..];
      forall i | 0 <= i < |rest| ensures Complete(rest[i]) && rest[i] == lines[i + 1] {
      }
      CrlfInALine(rest);
      CrlfInEither(l, Join(rest));
      if exists i | 0 <= i < |rest| :: HasCrlf(rest[i]) {
        var i :| 0 <= i < |rest| && HasCrlf(rest[i]);
        assert HasCrlf(lines[i + 1]);
      }
      if HasCrlf(Join(rest)) && !HasCrlf(l) {
        var i :| 0 <= i < |rest| && HasCrlf(rest[i]);
        assert HasCrlf(lines[i + 1]);
      }
      if exists i | 0 <= i < |lines| :: HasCrlf(lines[i]) {
        var i :| 0 <= i < |lines| && HasCrlf(lines[i]);
        if i > 0 {
          assert HasCrlf(rest[i - 1]);
        }
      }
    }
  }

  /** Behind a complete line, or one that does not end in CR, no pair straddles the seam. */
  lemma CrlfInEither(a: string, b: string)
    requires a == "" || a[|a| - 1] != '\r'
    ensures HasCrlf(a + b) <==> HasCrlf(a) || HasCrlf(b)
  {
    if HasCrlf(a) {
      var i :| 0 <= i < |a| - 1 && a[i] == '\r' && a[i + 1] == '\n';
      assert (a + b)[i] == '\r' && (a + b)[i + 1] == '\n';
    }
    if HasCrlf(b) {
      var i :| 0 <= i < |b| - 1 && b[i] == '\r' && b[i + 1] == '\n';
      assert (a + b)[|a| + i] == '\r' && (a + b)[|a| + i + 1] == '\n';
    }
    if HasCrlf(a + b) {
      var i :| 0 <= i < |a + b| - 1 && (a + b)[i] == '\r' && (a + b)[i + 1] == '\n';
      if i + 1 < |a| {
        assert a[i] == '\r' && a[i + 1] == '\n';
      } else {
        assert i >= |a|;
        assert b[i - |a|] == '\r' && b[i - |a| + 1] == '\n';
      }
    }
  }

  lemma {:induction false} CrlfOfALine(t: string, l: string)
    requires l in Lines(t) && HasCrlf(l)
    ensures HasCrlf(t)
    decreases |t|
  {
    var n := LineLength(t);
    if l == t[..n] {
      var i :| 0 <= i < |l| - 1 && l[i] == '\r' && l[i + 1] == '\n';
      assert t[i] == '\r' && t[i + 1] == '\n';
    } else {
      CrlfOfALine(t[n..], l);
      var i :| 0 <= i < |t[n..]| - 1 && t[n..][i] == '\r' && t[n..][i + 1] == '\n';
      assert t[n + i] == '\r' && t[n + i + 1] == '\n';
    }
  }

  lemma SectionCrlf(newline: string)
    requires IsNewline(newline)
    ensures HasCrlf(SectionText(newline)) <==> newline == CRLF
  {
    var lines := SectionLines(newline, 5);
    forall i | 0 <= i < 5 ensures Complete(lines[i]) && (HasCrlf(lines[i]) <==> newline == CRLF) {
      SectionHeaders(i, newline);
      SectionIsClean(i);
      CrlfInEither(SECTION[i], newline);
      assert newline == CRLF ==> CRLF[0] == '\r' && CRLF[1] == '\n';
      assert SECTION[i] + newline == lines[i];
    }
    CrlfInALine(lines);
    assert HasCrlf(lines[0]) <==> newline == CRLF;
  }

  /** The input has no CRLF, and its last kept line ends the text with a bare CR. */
  ghost predicate EndsInBareCr(t: string) {
    !HasCrlf(t) && Body(t).Some? && Body(t).value != "" && Body(t).value[|Body(t).value| - 1] == '\r'
  }

  function Mark(t: string): string {
    if HasBom(t) then BOM else ""
  }

  lemma RewriteShape(t: string, kept: seq<string>, newline: string)
    requires KeptLines(Lines(AfterBom(t)), false) == Some(kept) && IsNewline(newline)
    ensures var c := Completed(kept, Mark(t), newline);
            var y := Mark(t) + (Join(c) + SectionText(newline));
            && Terminated(Mark(t) + Join(kept), newline) + SectionText(newline) == y
            && Mark(y) == Mark(t) && Body(y) == Some(Mark(t) + Join(c))
            && forall n :: IsNewline(n) ==> Terminated(Mark(t) + Join(c), n) == Mark(t) + Join(c)
  {
    hide HeaderOf, KeptLines, Join, SectionText, Lines;
    var mark := Mark(t);
    LinesAreProper(AfterBom(t));
    KeptShape(Lines(AfterBom(t)), false);
    CompletedShape(kept, mark, newline);
    SecondPassKeeps(kept, mark, newline);
    var c := Completed(kept, mark, newline);
    var rest := Join(c) + SectionText(newline);
    var y := mark + rest;
    assert mark + Join(c) + SectionText(newline) == y;
    if HasBom(t) {
      assert BOM <= y && y[3..] == rest;
    } else {
      NoNewMark(t, kept, newline);
      assert y == rest;
    }
    MarkedEndsInNewline(mark, c);
  }

  lemma MarkedEndsInNewline(mark: string, c: seq<string>)
    requires (forall i | 0 <= i < |c| :: Complete(c[i])) && (mark != "" ==> c != [])
    ensures mark + Join(c) == "" || (mark + Join(c))[|mark + Join(c)| - 1] == '\n'
  {
    if c != [] {
      JoinEnd(c[..|c| - 1], c[|c| - 1]);
      assert c == c[..|c| - 1] + [c[|c| - 1]];
    }
  }

  /** The second pass sees CRLF if the first did, or if it made one out of a bare CR. */
  lemma SecondNewline(t: string, kept: seq<string>)
    requires KeptLines(Lines(AfterBom(t)), false) == Some(kept)
    ensures var c := Completed(kept, Mark(t), Newline(t));
            HasCrlf(Mark(t) + (Join(c) + SectionText(Newline(t)))) <==> HasCrlf(t) || EndsInBareCr(t)
  {
    hide HeaderOf, KeptLines, SectionText, Lines, HasCrlf;
    var mark, newline := Mark(t), Newline(t);
    var c := Completed(kept, mark, newline);
    LinesAreProper(AfterBom(t));
    KeptShape(Lines(AfterBom(t)), false);
    CompletedShape(kept, mark, newline);
    MarkedEndsInNewline("", c);
    assert "" + Join(c) == Join(c);
    SectionCrlf(newline);
    NoCrlfInMark(mark, Join(c) + SectionText(newline));
    CrlfInEither(Join(c), SectionText(newline));
    CrlfInALine(c);
    if newline == LF {
      CompletedCrlf(t, kept, mark);
      BodyEnd(t, kept);
    }
  }

  lemma NoCrlfInMark(mark: string, rest: string)
    requires mark == "" || mark == BOM
    ensures HasCrlf(mark + rest) <==> HasCrlf(rest)
  {
    CrlfInEither(mark, rest);
  }

  predicate EndsInCr(lines: seq<string>) {
    lines != [] && lines[|lines| - 1] != "" && lines[|lines| - 1][|lines[|lines| - 1]| - 1] == '\r'
  }

  lemma BodyEnd(t: string, kept: seq<string>)
    requires KeptLines(Lines(AfterBom(t)), false) == Some(kept) && Proper(kept)
    ensures var body := Mark(t) + Join(kept);
            Body(t) == Some(body) && (EndsInCr(kept) <==> body != "" && body[|body| - 1] == '\r')
  {
    hide HeaderOf, KeptLines, Lines, Join, HasBom, AfterBom;
    JoinedEnd(Mark(t), kept);
  }

  lemma JoinedEnd(mark: string, kept: seq<string>)
    requires (mark == "" || mark == BOM) && Proper(kept)
    ensures var body := mark + Join(kept); EndsInCr(kept) <==> body != "" && body[|body| - 1] == '\r'
  {
    hide Join;
    if kept == [] {
      NothingJoined("");
      assert mark + Join([]) == mark;
      assert BOM[|BOM| - 1] != '\r';
    } else {
      var init, last := kept[..|kept| - 1], kept[|kept| - 1];
      assert kept == init + [last] && IsLine(last);
      JoinEnd(init, last);
      LastByte(mark + Join(init), last);
      assert mark + (Join(init) + last) == mark + Join(init) + last;
    }
  }

  lemma CompletedCrlf(t: string, kept: seq<string>, mark: string)
    requires !HasCrlf(t) && Proper(kept) && forall i | 0 <= i < |kept| :: kept[i] in Lines(AfterBom(t))
    ensures (exists i | 0 <= i < |Completed(kept, mark, LF)| :: HasCrlf(Completed(kept, mark, LF)[i])) <==>
              EndsInCr(kept)
  {
    hide Lines;
    var c := Completed(kept, mark, LF);
    assert !HasCrlf(AfterBom(t)) by {
      if HasBom(t) {
        assert t == BOM + t[3..];
        NoCrlfInMark(BOM, t[3..]);
      }
    }
    forall i | 0 <= i < |kept| ensures !HasCrlf(kept[i]) {
      if HasCrlf(kept[i]) {
        CrlfOfALine(AfterBom(t), kept[i]);
      }
    }
    if kept != [] {
      var last := kept[|kept| - 1];
      assert IsLine(last);
      if last[|last| - 1] == '\r' {
        assert c[|c| - 1] == last + LF;
        assert (last + LF)[|last| - 1] == '\r' && (last + LF)[|last|] == '\n';
        assert HasCrlf(c[|c| - 1]);
      } else {
        CrlfInEither(last, LF);
      }
    }
  }

  lemma SectionLengths()
    ensures |SectionText(CRLF)| == |SectionText(LF)| + 5
  {
    SectionLength(LF, 5);
    SectionLength(CRLF, 5);
  }

  lemma {:induction false} SectionLength(newline: string, n: nat)
    requires n <= 5
    ensures |Join(SectionLines(newline, n))| == |Join(SectionLines("", n))| + n * |newline|
  {
    hide Join;
    if n == 0 {
      assert SectionLines(newline, 0) == SectionLines("", 0) == [];
    } else {
      SectionLength(newline, n - 1);
      OneMoreSectionLine(newline, n);
      OneMoreSectionLine("", n);
    }
  }

  lemma OneMoreSectionLine(newline: string, n: nat)
    requires 0 < n <= 5
    ensures |Join(SectionLines(newline, n))| == |Join(SectionLines(newline, n - 1))| + |SECTION[n - 1]| + |newline|
  {
    hide Join;
    var part := SECTION[n - 1] + newline;
    JoinEnd(SectionLines(newline, n - 1), part);
    assert SectionLines(newline, n) == SectionLines(newline, n - 1) + [part];
  }

  /** Rewriting a rewritten text changes nothing, with or without a byte-order mark, whatever the
      newline and however many sections there were, if and only if the first pass did not turn a
      bare CR at the end into the text's first CRLF. */
  lemma RewriteIsIdempotentIff(t: string, size: nat)
    requires Transformed(t, size).Some?
    ensures var y := Transformed(t, size).value;
            Transformed(y, size) == Some(y) <==> !EndsInBareCr(t)
  {
    hide HeaderOf, KeptLines, Join, SectionText, Lines, HasCrlf, HasBom, Completed;
    var kept := KeptLines(Lines(AfterBom(t)), false).value;
    var newline := Newline(t);
    RewriteShape(t, kept, newline);
    SecondNewline(t, kept);
    SectionLengths();
    var body := Mark(t) + Join(Completed(kept, Mark(t), newline));
    var y := Transformed(t, size).value;
    assert y == body + SectionText(newline);
    assert Mark(t) + (Join(Completed(kept, Mark(t), newline)) + SectionText(newline)) == y;
    assert Terminated(body, Newline(y)) == body;
    if EndsInBareCr(t) {
      assert |body + SectionText(Newline(y))| == |y| + 5;
    } else {
      assert Newline(y) == newline;
    }
  }

  lemma ResultFits(t: string, size: nat)
    ensures Transformed(t, size).Some? ==> |Transformed(t, size).value| < size
  {
  }

  /** A letter and a bare CR, and nothing else: the smallest text that is rewritten twice. */
  lemma BareCrIsNotIdempotent(size: nat)
    requires size >= 128
    ensures EndsInBareCr("a\r") && Transformed("a\r", size).Some?
    ensures Transformed(Transformed("a\r", size).value, size) != Transformed("a\r", size)
  {
    var t := "a\r";
    assert LineLength(t[1..]) == 1 && LineLength(t) == 2 && t[..2] == t && t[2..] == "";
    assert Lines(t) == [t];
    assert Unindented(t) == t && Trimmed(t[1..]) == "" && Trimmed(t) == "a";
    assert HeaderOf(t) == NoHeader;
    assert KeptLines([t][1..], false) == Some([]) && [t][0] == t;
    assert KeptLines(Lines(t), false) == Some([t]);
    assert Join([t]) == t + Join([]) == t;
    assert Body(t) == Some("" + t) && "" + t == t;
    assert !HasCrlf(t);
    SectionSize();
    RewriteIsIdempotentIff(t, size);
  }

  lemma SectionSize()
    ensures |SectionText(LF)| == SECTION_SIZE - 1
  {
    SectionLength("", 0);
    OneMoreSectionLine(LF, 1);
    OneMoreSectionLine(LF, 2);
    OneMoreSectionLine(LF, 3);
    OneMoreSectionLine(LF, 4);
    OneMoreSectionLine(LF, 5);
    assert SectionLines(LF, 0) == [];
  }

  // ---- No NUL ----

  predicate NoNul(lines: seq<string>) {
    forall l <- lines :: '\0' !in l
  }

  lemma {:induction false} LinesHaveNoNul(t: string)
    requires '\0' !in t
    ensures NoNul(Lines(t))
    decreases |t|
  {
    if t != "" {
      LinesHaveNoNul(t[LineLength(t)..]);
    }
  }

  lemma {:induction false} KeptHaveNoNul(lines: seq<string>, skipping: bool)
    requires NoNul(lines) && KeptLines(lines, skipping).Some?
    ensures NoNul(KeptLines(lines, skipping).value)
  {
    hide HeaderOf;
    if lines != [] {
      var h := HeaderOf(lines[0]);
      KeptHaveNoNul(lines[1..], if h.Section? then h.wanted else skipping);
    }
  }

  lemma {:induction false} JoinHasNoNul(lines: seq<string>)
    requires NoNul(lines)
    ensures '\0' !in Join(lines)
  {
    if lines != [] {
      JoinHasNoNul(lines[1..]);
    }
  }

  lemma SectionHasNoNul(newline: string)
    requires IsNewline(newline)
    ensures '\0' !in SectionText(newline)
  {
    hide Join;
    var lines := SectionLines(newline, 5);
    forall i | 0 <= i < 5 ensures '\0' !in lines[i] {
      SectionLineHasNoNul(i);
      assert lines[i] == SECTION[i] + newline;
    }
    JoinHasNoNul(lines);
  }

  lemma SectionLineHasNoNul(i: nat)
    requires i < 5
    ensures '\0' !in SECTION[i]
  {
  }

  /** Text in, text out: the rewriting adds no NUL. */
  lemma ResultHasNoNul(t: string, size: nat)
    requires '\0' !in t && Transformed(t, size).Some?
    ensures '\0' !in Transformed(t, size).value
  {
    hide Lines, KeptLines, Join, SectionText;
    LinesHaveNoNul(AfterBom(t));
    var kept := KeptLines(Lines(AfterBom(t)), false).value;
    KeptHaveNoNul(Lines(AfterBom(t)), false);
    JoinHasNoNul(kept);
    SectionHasNoNul(Newline(t));
  }
}
