/** The text of the replay ledger: one line per redeemed code, and the substring test that
    compaction uses to drop duplicates (sysmodule/sysmodule_history.c). */
module LedgerText {
  import opened Decimals
  import opened Wrappers

  const MAX_DAY: nat := 0xFFFF
  const MAX_NONCE: nat := 0x1FF_FFFF
  const MAX_NONCE_V2: nat := 0x1FF
  const LINE_SIZE: nat := 256

  datatype Entry = Entry(day: nat, nonce: nat, version: nat)

  /** The values a ledger line may hold. */
  predicate Sound(e: Entry) {
    && e.day <= MAX_DAY && e.nonce <= MAX_NONCE
    && (e.version == 1 || (e.version == 2 && e.nonce <= MAX_NONCE_V2))
  }

  function Head(): string {
    "{\"day_index\":"
  }

  function Middle(): string {
    ",\"nonce\":"
  }

  function End(version: nat): string {
    if version == 2 then ",\"token_version\":2}" else "}"
  }

  /** A record as the program writes it. */
  function Line(e: Entry): string {
    Head() + (Decimal(e.day) + (Middle() + (Decimal(e.nonce) + End(e.version))))
  }

  function Render(es: seq<Entry>): string {
    if es == [] then "" else Render(es[..|es| - 1]) + Line(es[|es| - 1]) + "\n"
  }

  predicate At(needle: string, hay: string, i: nat)
    requires i + |needle| <= |hay|
  {
    hay[i..i + |needle|] == needle
  }

  /** Whether strstr finds the needle. */
  predicate Occurs(needle: string, hay: string) {
    exists i :: 0 <= i <= |hay| - |needle| && At(needle, hay, i)
  }

  /** The lines of a text as the storage hands them out, or nothing when a line is too long or
      holds a NUL; `line` is the part of the current line already read. */
  function LinesFrom(line: string, text: string): Option<seq<string>>
    decreases |text|
  {
    if text == "" then Some(if line == "" then [] else [line])
    else if text[0] == '\n' then
      match LinesFrom("", text[1..])
      case None => None
      case Some(rest) => Some([line] + rest)
    else if text[0] == '\0' || |line| + 1 >= LINE_SIZE then None
    else LinesFrom(line + [text[0]], text[1..])
  }

  // ---- Lines ----

  lemma Cancel(p: string, x: string, y: string)
    requires p + x == p + y
    ensures x == y
  {
    assert x == (p + x)[|p|..] == (p + y)[|p|..] == y;
  }

  /** A number ends where the digits end. */
  lemma NumberThenRest(a: nat, b: nat, x: string, y: string)
    requires x != "" && y != "" && !IsDigit(x[0]) && !IsDigit(y[0])
    requires Decimal(a) + x == Decimal(b) + y
    ensures a == b && x == y
  {
    hide Decimal;
    DecimalIsDigits(a);
    DecimalIsDigits(b);
    var l, r := Decimal(a), Decimal(b);
    DigitsThenRest(l, x);
    DigitsThenRest(r, y);
    assert l == (l + x)[..|l|] == (r + y)[..|r|] == r;
    Cancel(l, x, y);
    DecimalDistinct(a, b);
  }

  /** Different records are different lines. */
  lemma LineDistinct(a: Entry, b: Entry)
    requires Sound(a) && Sound(b) && Line(a) == Line(b)
    ensures a == b
  {
    hide Decimal, Head;
    var x, y := Decimal(a.nonce) + End(a.version), Decimal(b.nonce) + End(b.version);
    Cancel(Head(), Decimal(a.day) + (Middle() + x), Decimal(b.day) + (Middle() + y));
    NumberThenRest(a.day, b.day, Middle() + x, Middle() + y);
    Cancel(Middle(), x, y);
    NumberThenRest(a.nonce, b.nonce, End(a.version), End(b.version));
  }

  predicate Plain(c: char) {
    c != '{' && c != '\n' && c != '\0'
  }

  predicate AllPlain(s: string) {
    forall k | 0 <= k < |s| :: Plain(s[k])
  }

  lemma PlainDigits(n: nat)
    ensures AllPlain(Decimal(n))
  {
    DecimalIsDigits(n);
    forall k | 0 <= k < |Decimal(n)| ensures Plain(Decimal(n)[k]) {
      assert IsDigit(Decimal(n)[k]);
    }
  }

  lemma PlainParts(version: nat)
    ensures |Head()| > 0 && Head()[0] == '{' && AllPlain(Head()[1..]) && AllPlain(Middle()) && AllPlain(End(version))
  {
  }

  lemma Powers()
    ensures Pow10(5) == 100_000 && Pow10(8) == 100_000_000
  {
    assert Pow10(2) == 100;
    assert Pow10(4) == 10_000;
    assert Pow10(6) == 1_000_000;
  }

  lemma LineLength(e: Entry)
    requires Sound(e)
    ensures |Line(e)| < 128
  {
    Powers();
    DecimalLength(e.day, 5);
    DecimalLength(e.nonce, 8);
  }

  /** A record's text: opened by its only brace, closed by its only newline, no NUL. */
  predicate IsRecord(b: string) {
    && |b| >= 2 && b[0] == '{' && b[|b| - 1] == '\n'
    && AllPlain(b[1..|b| - 1])
  }

  lemma LineIsRecord(e: Entry)
    ensures IsRecord(Line(e) + "\n")
  {
    hide Decimal, Head, Middle, End;
    PlainDigits(e.day);
    PlainDigits(e.nonce);
    PlainParts(e.version);
    var tail := Middle() + (Decimal(e.nonce) + End(e.version));
    assert AllPlain(tail);
    var head := Head();
    var body := head[1..] + (Decimal(e.day) + tail);
    assert AllPlain(body);
    var b := Line(e) + "\n";
    assert Line(e) == [head[0]] + body;
    assert b[1..|b| - 1] == body;
  }

  // ---- The duplicate test ----

  /** Behind a text that ends in a newline, a record that reaches past that text matches only
      the whole record there. */
  lemma MatchIsWhole(before: string, l: string, n: string, i: nat)
    requires before == "" || before[|before| - 1] == '\n'
    requires IsRecord(l) && IsRecord(n)
    requires |before| < i + |n| <= |before + l| && At(n, before + l, i)
    ensures i == |before| && n == l
  {
    var text := before + l;
    forall k | 0 <= k < |n| ensures text[i + k] == n[k] {
      assert text[i..i + |n|][k] == n[k];
    }
    assert forall k | 1 <= k < |n| - 1 :: n[k] == n[1..|n| - 1][k - 1];
    assert forall k | 1 <= k < |l| - 1 :: l[k] == l[1..|l| - 1][k - 1];
    assert forall p | i <= p < i + |n| :: text[p] == n[p - i];
    assert before != "" ==> text[|before| - 1] == '\n';
    assert i >= |before|;
    assert text[i] == l[i - |before|];
    assert i == |before|;
    assert text[i + |n| - 1] == l[|n| - 1];
    assert |n| == |l|;
    assert text[i..i + |n|] == l;
  }

  lemma OccursInOneMore(before: string, l: string, n: string)
    requires before == "" || before[|before| - 1] == '\n'
    requires IsRecord(l) && IsRecord(n)
    ensures Occurs(n, before + l) <==> Occurs(n, before) || n == l
  {
    if Occurs(n, before) {
      var i :| 0 <= i <= |before| - |n| && At(n, before, i);
      assert (before + l)[i..i + |n|] == before[i..i + |n|];
      assert At(n, before + l, i);
    }
    if n == l {
      assert At(n, before + l, |before|);
    }
    if Occurs(n, before + l) {
      var i :| 0 <= i <= |before + l| - |n| && At(n, before + l, i);
      if i + |n| <= |before| {
        assert (before + l)[i..i + |n|] == before[i..i + |n|];
        assert At(n, before, i);
      } else {
        MatchIsWhole(before, l, n, i);
      }
    }
  }

  /** On the text compaction builds, finding a line as a substring is finding that record:
      no line matches across two others or inside one. */
  lemma {:induction false} OccursIsMembership(es: seq<Entry>, e: Entry)
    requires Sound(e) && forall x <- es :: Sound(x)
    ensures Occurs(Line(e) + "\n", Render(es)) <==> e in es
  {
    hide Line, Render, IsRecord, Occurs, Sound;
    var n := Line(e) + "\n";
    LineIsRecord(e);
    if es == [] {
      NotInNothing(n);
    } else {
      var init, last := es[..|es| - 1], es[|es| - 1];
      OccursIsMembership(init, e);
      LineIsRecord(last);
      RenderEnds(init);
      OccursInOneMore(Render(init), Line(last) + "\n", n);
      AddLine(init, last);
      assert es == init + [last];
      SameRecord(e, last);
      assert e in es <==> e in init || e == last;
    }
  }

  lemma NotInNothing(n: string)
    requires IsRecord(n)
    ensures !Occurs(n, Render([]))
  {
  }

  lemma AddLine(es: seq<Entry>, e: Entry)
    ensures Render(es + [e]) == Render(es) + (Line(e) + "\n")
  {
    assert (es + [e])[..|es|] == es;
    assert Render(es) + Line(e) + "\n" == Render(es) + (Line(e) + "\n");
  }

  lemma SameRecord(a: Entry, b: Entry)
    requires Sound(a) && Sound(b)
    ensures Line(a) + "\n" == Line(b) + "\n" <==> a == b
  {
    hide Line, Sound;
    var x, y := Line(a) + "\n", Line(b) + "\n";
    if x == y {
      assert Line(a) == x[..|x| - 1] == y[..|y| - 1] == Line(b);
      LineDistinct(a, b);
    }
  }

  lemma RenderEnds(es: seq<Entry>)
    ensures Render(es) == "" || Render(es)[|Render(es)| - 1] == '\n'
  {
  }

  // ---- Reading back ----

  function LinesOf(es: seq<Entry>): seq<string> {
    seq(|es|, i requires 0 <= i < |es| => Line(es[i]))
  }

  function Prepend(lines: seq<string>, rest: Option<seq<string>>): Option<seq<string>> {
    match rest
    case None => None
    case Some(more) => Some(lines + more)
  }

  lemma PrependTwice(a: seq<string>, b: seq<string>, rest: Option<seq<string>>)
    ensures Prepend(a, Prepend(b, rest)) == Prepend(a + b, rest)
  {
    if rest.Some? {
      assert a + (b + rest.value) == a + b + rest.value;
    }
  }

  lemma {:induction false} OneLine(line: string, rest: string, text: string)
    requires forall k | 0 <= k < |rest| :: rest[k] != '\n' && rest[k] != '\0'
    requires |line| + |rest| < LINE_SIZE
    ensures LinesFrom(line, rest + "\n" + text) == Prepend([line + rest], LinesFrom("", text))
    decreases |rest|
  {
    var whole := rest + "\n" + text;
    if rest == "" {
      assert whole[1..] == text;
      assert line + rest == line;
    } else {
      assert whole[1..] == rest[1..] + "\n" + text;
      assert line + [rest[0]] + rest[1..] == line + rest;
      OneLine(line + [rest[0]], rest[1..], text);
    }
  }

  lemma LineHasNoBreak(e: Entry)
    ensures forall k | 0 <= k < |Line(e)| :: Line(e)[k] != '\n' && Line(e)[k] != '\0'
  {
    hide Line;
    LineIsRecord(e);
    var l, b := Line(e), Line(e) + "\n";
    forall k | 0 <= k < |l| ensures l[k] != '\n' && l[k] != '\0' {
      assert l[k] == b[k];
      assert k > 0 ==> b[k] == b[1..|b| - 1][k - 1];
    }
  }

  lemma {:induction false} LinesOfRender(es: seq<Entry>, text: string)
    requires forall x <- es :: Sound(x)
    ensures LinesFrom("", Render(es) + text) == Prepend(LinesOf(es), LinesFrom("", text))
  {
    hide Line, LinesFrom;
    if es == [] {
      assert Render(es) + text == text;
      PrependTwice([], LinesOf(es), LinesFrom("", text));
      assert LinesFrom("", text).Some? ==> LinesOf(es) + LinesFrom("", text).value == LinesFrom("", text).value;
    } else {
      var init, last := es[..|es| - 1], es[|es| - 1];
      LineHasNoBreak(last);
      LineLength(last);
      var l := Line(last) + "\n" + text;
      assert Render(es) + text == Render(init) + l;
      LinesOfRender(init, l);
      OneLine("", Line(last), text);
      assert "" + Line(last) == Line(last);
      PrependTwice(LinesOf(init), [Line(last)], LinesFrom("", text));
      assert LinesOf(es) == LinesOf(init) + [Line(last)];
    }
  }

  /** Writing a ledger and reading it line by line gives the same lines. */
  lemma RenderedLines(es: seq<Entry>)
    requires forall x <- es :: Sound(x)
    ensures LinesFrom("", Render(es)) == Some(LinesOf(es))
  {
    assert Render(es) + "" == Render(es);
    LinesOfRender(es, "");
    assert LinesOf(es) + [] == LinesOf(es);
  }

  /** A text that a new line can be appended to without touching an old one. */
  predicate Terminated(text: string) {
    text == "" || text[|text| - 1] == '\n'
  }

  lemma {:induction false} LinesOfAppended(line: string, text: string, more: string)
    requires text != "" && Terminated(text) && LinesFrom(line, text).Some?
    ensures LinesFrom(line, text + more) == Prepend(LinesFrom(line, text).value, LinesFrom("", more))
    decreases |text|
  {
    assert (text + more)[1..] == text[1..] + more;
    if text[0] == '\n' {
      if text[1..] == "" {
        assert text[1..] + more == more;
        assert LinesFrom("", text[1..]) == Some([]);
        assert [line] + [] == [line];
      } else {
        LinesOfAppended("", text[1..], more);
        PrependTwice([line], LinesFrom("", text[1..]).value, LinesFrom("", more));
      }
    } else {
      LinesOfAppended(line + [text[0]], text[1..], more);
    }
  }
}
