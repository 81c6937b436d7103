/** The replay ledger: looking a code up, compacting, consuming (sysmodule/sysmodule_history.c).
    JSON parsing is a parameter: it must read back what the program writes, skip white space in
    front of it, and refuse anything but white space behind it. */
module NonceLedger {
  import opened Wrappers
  import opened LedgerText

  /** The ledger may take no more than this, the terminating NUL included. */
  const FILE_SIZE: nat := 200 * 256 + 1
  const RESERVE: nat := 128

  type Parser = string -> Option<Entry>

  ghost predicate GoodParser(parse: Parser) {
    && (forall e: Entry :: Sound(e) ==> parse(Line(e)) == Some(e))
    && (forall s: string :: parse(s).Some? ==> Sound(parse(s).value))
    && (forall e: Entry :: Sound(e) ==> parse("\r" + Line(e)) == Some(e))
    && (forall s: string, e: Entry {:trigger Refuses(parse, s, e)} :: Sound(e) && parse(s).Some? ==>
          Refuses(parse, s, e))
  }

  /** A record behind other text cannot be understood. */
  predicate Refuses(parse: Parser, s: string, e: Entry) {
    parse(s + Line(e)).None?
  }

  /** A parser that understands what the program writes, alone or behind a carriage return. */
  ghost function PlainParser(s: string): Option<Entry> {
    if exists e: Entry :: Reads(s, e) then
      var e :| Reads(s, e);
      Some(e)
    else None
  }

  ghost predicate Reads(s: string, e: Entry) {
    Sound(e) && (s == Line(e) || s == "\r" + Line(e))
  }

  /** There are good parsers. */
  lemma PlainParserIsGood()
    ensures GoodParser(PlainParser)
  {
    hide Line, Sound;
    forall e: Entry | Sound(e) ensures PlainParser(Line(e)) == Some(e) && PlainParser("\r" + Line(e)) == Some(e) {
      assert Reads(Line(e), e) && Reads("\r" + Line(e), e);
      forall x | Reads(Line(e), x) || Reads("\r" + Line(e), x) ensures x == e {
        ReadsOne(e, x);
      }
    }
    forall s: string, e: Entry | Sound(e) && PlainParser(s).Some? ensures Refuses(PlainParser, s, e) {
      var first := PlainParser(s).value;
      assert Reads(s, first);
      forall x ensures !Reads(s + Line(e), x) {
        TwoBraces(s, first, e, x);
      }
    }
  }

  lemma ReadsOne(e: Entry, x: Entry)
    requires Sound(e) && Sound(x)
    requires Reads(Line(e), x) || Reads("\r" + Line(e), x)
    ensures x == e
  {
    hide Line, Sound;
    FirstIsBrace(e);
    FirstIsBrace(x);
    assert ("\r" + Line(e))[1..] == Line(e) && ("\r" + Line(x))[1..] == Line(x);
    LineDistinct(e, x);
  }

  lemma FirstIsBrace(e: Entry)
    ensures |Line(e)| > 0 && Line(e)[0] == '{' && forall k | 0 < k < |Line(e)| :: Line(e)[k] != '{'
  {
    hide Line;
    LineIsRecord(e);
    var b := Line(e) + "\n";
    assert forall k | 0 < k < |Line(e)| :: Line(e)[k] == b[1..|b| - 1][k - 1];
  }

  lemma TwoBraces(s: string, first: Entry, e: Entry, x: Entry)
    requires Reads(s, first)
    ensures !Reads(s + Line(e), x)
  {
    hide Line, Sound;
    FirstIsBrace(first);
    FirstIsBrace(e);
    FirstIsBrace(x);
    assert |s| > 0 && (s[0] == '{' || (s[0] == '\r' && |s| > 1));
    assert (s + Line(e))[0] == s[0] && (s + Line(e))[|s|] == '{';
    assert ("\r" + Line(x))[0] == '\r';
    assert forall k | 1 < k < |Line(x)| + 1 :: ("\r" + Line(x))[k] == Line(x)[k - 1];
  }

  predicate Blank(line: string) {
    line == "" || line == "\r"
  }

  /** The records on some lines, or nothing when one of them cannot be understood. */
  function Records(parse: Parser, lines: seq<string>): Option<seq<Entry>> {
    if lines == [] then Some([])
    else
      var last := lines[|lines| - 1];
      match Records(parse, lines[..|lines| - 1])
      case None => None
      case Some(es) =>
        if Blank(last) then Some(es)
        else match parse(last)
          case None => None
          case Some(e) => Some(es + [e])
  }

  /** The records of a ledger file; a missing file has none. */
  function Contents(parse: Parser, text: Option<string>): Option<seq<Entry>> {
    match text
    case None => Some([])
    case Some(t) =>
      match LinesFrom("", t)
      case None => None
      case Some(lines) => Records(parse, lines)
  }

  /** What compaction keeps: the first copy of every record that is not before today. */
  function Kept(es: seq<Entry>, today: nat): seq<Entry> {
    if es == [] then []
    else
      var rest, e := Kept(es[..|es| - 1], today), es[|es| - 1];
      if e.day < today || e in rest then rest else rest + [e]
  }

  function NonBlank(lines: seq<string>): seq<string> {
    if lines == [] then []
    else
      var rest, line := NonBlank(lines[..|lines| - 1]), lines[|lines| - 1];
      if Blank(line) then rest else rest + [line]
  }

  predicate Fits(es: seq<Entry>) {
    es == [] || |Render(es)| + RESERVE < FILE_SIZE
  }

  /** The file a compaction leaves behind: rewritten, unless its lines other than blank ones are
      exactly the lines that would be written. */
  function Compacted(parse: Parser, text: Option<string>, today: nat): Option<string>
    requires Contents(parse, text).Some?
  {
    var kept := Kept(Contents(parse, text).value, today);
    if text.None? || NonBlank(LinesFrom("", text.value).value) == LinesOf(kept) then text else Some(Render(kept))
  }

  /** The recovery transaction copies the file through a buffer of the ledger's size. */
  predicate Copyable(text: Option<string>) {
    |Before(text)| < FILE_SIZE
  }

  /** The file can take one more record and still be copied. */
  predicate HasRoom(text: Option<string>) {
    |Before(text)| + RESERVE < FILE_SIZE
  }

  /** What stands behind the last newline. */
  function Unfinished(text: string): string {
    if Terminated(text) then "" else Unfinished(text[..|text| - 1]) + [text[|text| - 1]]
  }

  predicate Appendable(text: Option<string>) {
    Blank(Unfinished(Before(text)))
  }

  lemma {:induction false} RecordsAreSound(parse: Parser, lines: seq<string>)
    requires GoodParser(parse) && Records(parse, lines).Some?
    ensures forall e <- Records(parse, lines).value :: Sound(e)
  {
    if lines != [] {
      RecordsAreSound(parse, lines[..|lines| - 1]);
    }
  }

  lemma ParsedIsSound(parse: Parser, line: string)
    requires GoodParser(parse) && parse(line).Some?
    ensures Sound(parse(line).value)
  {
  }

  /** Compaction forgets exactly the days before today. */
  lemma {:induction false} KeptAnswers(es: seq<Entry>, today: nat, e: Entry)
    ensures e in Kept(es, today) <==> e in es && today <= e.day
  {
    if es != [] {
      KeptAnswers(es[..|es| - 1], today, e);
      assert es == es[..|es| - 1] + [es[|es| - 1]];
    }
  }

  /** The records give the same answers for today and later. */
  ghost predicate SameFrom(was: seq<Entry>, now: Option<seq<Entry>>, today: nat) {
    now.Some? && forall e: Entry | today <= e.day :: e in now.value <==> e in was
  }

  lemma SameFromIff(es: seq<Entry>, today: nat)
    ensures SameFrom(es, Some(es), today) && SameFrom(es, Some(Kept(es, today)), today)
    ensures SameFrom(es, Some([]), today) <==> Kept(es, today) == []
  {
    forall e: Entry ensures e in Kept(es, today) <==> e in es && today <= e.day {
      KeptAnswers(es, today, e);
    }
    if Kept(es, today) != [] {
      assert Kept(es, today)[0] in Kept(es, today);
    }
  }

  /** One sequence is what remains of another after striking out elements. */
  predicate Subsequence<T(==)>(a: seq<T>, b: seq<T>) {
    if b == [] then a == []
    else
      || Subsequence(a, b[..|b| - 1])
      || (a != [] && a[|a| - 1] == b[|b| - 1] && Subsequence(a[..|a| - 1], b[..|b| - 1]))
  }

  /** ... keeps the order and no record twice ... */
  lemma {:induction false} KeptInOrder(es: seq<Entry>, today: nat)
    ensures Subsequence(Kept(es, today), es)
    ensures forall i, j | 0 <= i < j < |Kept(es, today)| :: Kept(es, today)[i] != Kept(es, today)[j]
  {
    if es != [] {
      var init := es[..|es| - 1];
      KeptInOrder(init, today);
      assert (Kept(init, today) + [es[|es| - 1]])[..|Kept(init, today)|] == Kept(init, today);
    }
  }

  lemma {:induction false} KeptGrows(es: seq<Entry>, today: nat, n: nat)
    requires n <= |es|
    ensures Fits(Kept(es, today)) ==> Fits(Kept(es[..n], today))
    decreases |es| - n
  {
    if n < |es| {
      KeptGrows(es, today, n + 1);
      assert es[..n + 1][..n] == es[..n];
    } else {
      assert es[..n] == es;
    }
  }

  lemma {:induction false} KeptIsShort(parse: Parser, lines: seq<string>, today: nat)
    requires Records(parse, lines).Some?
    ensures |Kept(Records(parse, lines).value, today)| <= |NonBlank(lines)|
  {
    if lines != [] {
      KeptIsShort(parse, lines[..|lines| - 1], today);
    }
  }

  /** The state of one pass over the ledger. */
  class Scan {
    const parse: Parser
    const day: nat
    const nonce: nat
    const version: nat
    var used: bool
    var output: Option<string>
    var changed: bool

    constructor (parse: Parser, day: nat, nonce: nat, version: nat, output: Option<string>)
      requires output.Some? ==> output.value == ""
      ensures this.parse == parse && this.day == day && this.nonce == nonce && this.version == version
      ensures this.output == output && Scanned([], [])
    {
      this.parse, this.day, this.nonce, this.version, this.output := parse, day, nonce, version, output;
      used, changed := false, false;
    }

    /** The pass has met the records `es` on the lines `seen`. */
    ghost predicate Scanned(seen: seq<string>, es: seq<Entry>)
      reads this
    {
      && Records(parse, seen) == Some(es)
      && used == (Entry(day, nonce, version) in es)
      && (output.Some? ==>
            && output.value == Render(Kept(es, day)) && Fits(Kept(es, day))
            && changed == (NonBlank(seen) != LinesOf(Kept(es, day))))
      && (output.None? ==> !changed)
    }

    /** A line either extends the pass, or is malformed, or leaves no room for one more. */
    method Visit(line: string, ghost seen: seq<string>, ghost es: seq<Entry>) returns (ok: bool, ghost now: seq<Entry>)
      requires GoodParser(parse) && Scanned(seen, es)
      modifies this
      ensures output.Some? == old(output).Some?
      ensures ok ==> Scanned(seen + [line], now)
      ensures !ok ==> match Records(parse, seen + [line])
                      case None => true
                      case Some(more) => output.Some? && !Fits(Kept(more, day))
    {
      hide Line, Render, Kept, Fits, Sound, GoodParser;
      now := es;
      assert (seen + [line])[..|seen|] == seen;
      if Blank(line) {
        return true, now;
      }
      var parsed := parse(line);
      if parsed.None? {
        return false, now;
      }
      var e := parsed.value;
      ParsedIsSound(parse, line);
      now := es + [e];
      assert now[..|es|] == es;
      if e == Entry(day, nonce, version) {
        used := true;
      }
      if output.None? {
        return true, now;
      }
      RecordsAreSound(parse, seen);
      KeptIsShort(parse, seen, day);
      ok := Keep(line, e, seen, es);
    }

    method Keep(line: string, e: Entry, ghost seen: seq<string>, ghost es: seq<Entry>) returns (ok: bool)
      requires Sound(e) && (forall x <- es :: Sound(x)) && output == Some(Render(Kept(es, day))) && !Blank(line)
      requires changed == (NonBlank(seen) != LinesOf(Kept(es, day))) && Fits(Kept(es, day))
      requires |LinesOf(Kept(es, day))| <= |NonBlank(seen)|
      modifies this`output, this`changed
      ensures output.Some?
      ensures ok ==> output == Some(Render(Kept(es + [e], day))) && Fits(Kept(es + [e], day))
                     && changed == (NonBlank(seen + [line]) != LinesOf(Kept(es + [e], day)))
      ensures !ok ==> !Fits(Kept(es + [e], day))
    {
      hide Line, Render, Occurs, Sound;
      ghost var kept, lines := Kept(es, day), NonBlank(seen);
      assert (es + [e])[..|es|] == es && (seen + [line])[..|seen|] == seen;
      if e.day < day {
        changed := true;
        return true;
      }
      var normalized := Line(e) + "\n";
      forall x <- kept ensures Sound(x) {
        KeptAnswers(es, day, x);
      }
      OccursIsMembership(kept, e);
      if Occurs(normalized, output.value) {
        changed := true;
        return true;
      }
      assert (kept + [e])[..|kept|] == kept;
      OneMoreLine(lines, line, kept, e);
      if line != Line(e) {
        changed := true;
      }
      AddLine(kept, e);
      if |output.value| + |normalized| + RESERVE >= FILE_SIZE {
        return false;
      }
      output := Some(output.value + normalized);
      ok := true;
    }
  }

  lemma OneMoreLine(lines: seq<string>, line: string, kept: seq<Entry>, e: Entry)
    requires |kept| <= |lines|
    ensures (lines + [line] == LinesOf(kept + [e])) == (lines == LinesOf(kept) && line == Line(e))
  {
    assert LinesOf(kept + [e]) == LinesOf(kept) + [Line(e)];
    if lines + [line] == LinesOf(kept) + [Line(e)] {
      assert lines == (lines + [line])[..|lines|] == (LinesOf(kept) + [Line(e)])[..|kept|] == LinesOf(kept);
      assert line == (lines + [line])[|lines|];
    }
  }

  datatype Answer = ReadFailed | Told(used: bool)

  datatype Outcome = Done | CannotRead | CannotWrite

  /** The ledger file. A fault parameter says that the storage refuses the step it names. */
  class Ledger {
    const parse: Parser
    var text: Option<string>

    constructor (parse: Parser, text: Option<string>)
      ensures this.parse == parse && this.text == text
    {
      this.parse, this.text := parse, text;
    }

    function Entries(): Option<seq<Entry>>
      reads this
    {
      Contents(parse, text)
    }

    /** Hands every line to the pass, reading the file character by character. */
    method ReadLines(scan: Scan) returns (ok: bool, ghost seen: seq<string>, ghost es: seq<Entry>)
      requires GoodParser(parse) && text.Some? && scan.parse == parse && scan.Scanned([], [])
      modifies scan
      ensures scan.output.Some? == old(scan.output).Some?
      ensures ok ==> LinesFrom("", text.value) == Some(seen) && scan.Scanned(seen, es)
      ensures !ok ==> Refused(parse, LinesFrom("", text.value), scan.output.Some?, scan.day)
    {
      hide Scan.Scanned, Refused;
      var bytes := text.value;
      var line := "";
      seen, es := [], [];
      PrependNothing(LinesFrom("", bytes));
      for i := 0 to |bytes|
        invariant scan.output.Some? == old(scan.output).Some? && scan.Scanned(seen, es)
        invariant LinesFrom("", bytes) == Prepend(seen, LinesFrom(line, bytes[i..]))
      {
        assert bytes[i..][1..] == bytes[i + 1..];
        if bytes[i] == '\n' {
          ghost var rest := LinesFrom("", bytes[i + 1..]);
          PrependTwice(seen, [line], rest);
          var kept, now := TakeLine(scan, line, seen, es, rest);
          if !kept {
            return false, seen, es;
          }
          seen, es, line := seen + [line], now, "";
        } else {
          if bytes[i] == '\0' || |line| + 1 >= LINE_SIZE {
            Unreadable(parse, scan.output.Some?, scan.day);
            return false, seen, es;
          }
          line := line + [bytes[i]];
        }
      }
      ok := true;
      assert LinesFrom(line, "") == Some(if line == "" then [] else [line]);
      if line != "" {
        var kept, now := TakeLine(scan, line, seen, es, Some([]));
        assert seen + [line] + [] == seen + [line];
        ok, seen, es := kept, seen + [line], now;
      } else {
        assert seen + [] == seen;
      }
    }

    method TakeLine(scan: Scan, line: string, ghost seen: seq<string>, ghost es: seq<Entry>,
                    ghost rest: Option<seq<string>>)
      returns (ok: bool, ghost now: seq<Entry>)
      requires GoodParser(parse) && scan.parse == parse && scan.Scanned(seen, es)
      modifies scan
      ensures scan.output.Some? == old(scan.output).Some?
      ensures ok ==> scan.Scanned(seen + [line], now)
      ensures !ok ==> Refused(parse, Prepend(seen + [line], rest), scan.output.Some?, scan.day)
    {
      hide Scan.Scanned, Line, Kept, Fits;
      ok, now := scan.Visit(line, seen, es);
      if !ok && rest.Some? {
        if scan.output.Some? {
          StoppedEarly(parse, seen + [line], rest.value, scan.day);
        } else {
          Malformed(parse, seen + [line], rest.value);
        }
      }
    }

    method CheckNonceUsed(day: nat, nonce: nat, version: nat, fault: bool) returns (r: Answer)
      requires GoodParser(parse)
      ensures r == if fault || Entries().None? then ReadFailed else Told(Entry(day, nonce, version) in Entries().value)
    {
      var scan := new Scan(parse, day, nonce, version, None);
      if fault {
        return ReadFailed;
      }
      if text.None? {
        return Told(false);
      }
      var ok, seen, es := ReadLines(scan);
      r := if ok then Told(scan.used) else ReadFailed;
    }

    /** Drops the days before today and duplicate lines; the file is rewritten only when that
        changes it, and nothing happens at all unless what remains leaves room for one more. A
        rewriting removes the old file before it renames the new one, so one that fails in the
        `gap` between the two loses the file. */
    method Compact(today: nat, readFault: bool, writeFault: bool, gap: bool) returns (r: Outcome)
      requires GoodParser(parse)
      modifies this
      ensures r == CannotRead <==> readFault || old(Entries()).None? || !Fits(Kept(old(Entries()).value, today))
      ensures r == CannotWrite <==>
                r != CannotRead && writeFault && Compacted(parse, old(text), today) != old(text)
      ensures text == match r
                      case Done => Compacted(parse, old(text), today)
                      case CannotRead => old(text)
                      case CannotWrite => if gap then None else old(text)
      ensures r == Done ==> Entries() == Some(Kept(old(Entries()).value, today))
      ensures old(Entries()).Some? ==>
                (SameFrom(old(Entries()).value, Entries(), today)
                 <==> !(r == CannotWrite && gap && Kept(old(Entries()).value, today) != []))
      ensures old(Appendable(text)) ==> Appendable(text)
    {
      hide Line, Render, NonBlank, LinesFrom, LinesOf, Sound, Unfinished;
      if readFault {
        return CannotRead;
      }
      ghost var was := Entries();
      if was.Some? {
        SameFromIff(was.value, today);
      }
      if text.None? {
        return Done;
      }
      var scan := new Scan(parse, today, 0, 0, Some(""));
      var ok, seen, es := ReadLines(scan);
      if !ok {
        return CannotRead;
      }
      CompactedIsRead(parse, text, today);
      if scan.changed {
        LeftAloneIff(parse, text, today);
        if writeFault {
          if gap {
            NoText();
            text := None;
          }
          return CannotWrite;
        }
        text := scan.output;
      }
      r := Done;
    }

    /** Appends one record; a failed append may leave any part of the line behind. On a readable
        ledger the record is added exactly when the file ends behind a newline, or in a line
        that holds a lone carriage return; otherwise no record of the file can be read any more. */
    method ConsumeNonce(e: Entry, fault: bool, written: nat) returns (ok: bool)
      requires GoodParser(parse) && Sound(e) && written <= |Line(e)|
      modifies this
      ensures ok == !fault
      ensures ok ==> text == Some(Before(old(text)) + (Line(e) + "\n")) && Appendable(text)
      ensures ok && old(Entries()).Some? ==>
                Entries() == if old(Appendable(text)) then Some(old(Entries()).value + [e]) else None
      ensures !ok ==> text == old(text) || text == Some(Before(old(text)) + Line(e)[..written])
    {
      hide Line, Contents;
      var before := Before(text);
      if fault {
        if * {
          text := Some(before + Line(e)[..written]);
        }
        return false;
      }
      text := Some(before + (Line(e) + "\n"));
      if old(Entries()).Some? {
        AppendedRecord(parse, old(text), e);
      }
      ok := true;
    }
  }

  function Before(text: Option<string>): string {
    if text.Some? then text.value else ""
  }

  /** The pass over these lines fails: one of them is malformed, or no room is left. */
  ghost predicate Refused(parse: Parser, lines: Option<seq<string>>, compacting: bool, day: nat) {
    || lines.None?
    || Records(parse, lines.value).None?
    || (compacting && !Fits(Kept(Records(parse, lines.value).value, day)))
  }

  lemma Unreadable(parse: Parser, compacting: bool, day: nat)
    ensures Refused(parse, None, compacting, day)
  {
  }

  lemma {:induction false} Malformed(parse: Parser, seen: seq<string>, rest: seq<string>)
    requires Records(parse, seen).None?
    ensures Records(parse, seen + rest).None?
  {
    if rest == [] {
      assert seen + rest == seen;
    } else {
      Malformed(parse, seen, rest[..|rest| - 1]);
      assert (seen + rest)[..|seen + rest| - 1] == seen + rest[..|rest| - 1];
    }
  }

  lemma PrependNothing(rest: Option<seq<string>>)
    ensures Prepend([], rest) == rest
  {
    assert rest.Some? ==> [] + rest.value == rest.value;
  }

  /** A line that cannot be taken, wherever it stands, spoils the whole. */
  lemma {:induction false} StoppedEarly(parse: Parser, seen: seq<string>, rest: seq<string>, day: nat)
    requires Records(parse, seen).None? || !Fits(Kept(Records(parse, seen).value, day))
    ensures Records(parse, seen + rest).None? || !Fits(Kept(Records(parse, seen + rest).value, day))
  {
    if rest == [] {
      assert seen + rest == seen;
    } else {
      var init, last := rest[..|rest| - 1], rest[|rest| - 1];
      StoppedEarly(parse, seen, init, day);
      var all := seen + rest;
      assert all[..|all| - 1] == seen + init;
      if Records(parse, all).Some? {
        var es, more := Records(parse, seen + init).value, Records(parse, all).value;
        KeptGrows(more, day, |es|);
        assert more[..|es|] == es;
      }
    }
  }

  lemma {:induction false} BlanksDoNotMatter(parse: Parser, lines: seq<string>)
    ensures Records(parse, NonBlank(lines)) == Records(parse, lines)
  {
    hide Line, Sound;
    if lines != [] {
      var init, last := lines[..|lines| - 1], lines[|lines| - 1];
      BlanksDoNotMatter(parse, init);
      if Blank(last) {
        assert NonBlank(lines) == NonBlank(init);
        assert Records(parse, lines) == Records(parse, init);
      } else {
        var kept := NonBlank(init) + [last];
        assert NonBlank(lines) == kept && kept[..|kept| - 1] == NonBlank(init);
        assert Records(parse, kept) == Records(parse, lines);
      }
    }
  }

  lemma {:induction false} NoBlankLines(es: seq<Entry>)
    ensures NonBlank(LinesOf(es)) == LinesOf(es)
  {
    hide Line;
    if es != [] {
      var init, last := es[..|es| - 1], es[|es| - 1];
      NoBlankLines(init);
      LineIsNotBlank(last);
      assert LinesOf(es)[..|es| - 1] == LinesOf(init) && LinesOf(es) == LinesOf(init) + [Line(last)];
    }
  }

  /** What compaction leaves behind holds the kept records, and can be appended to if the old
      file could. */
  lemma CompactedIsRead(parse: Parser, text: Option<string>, today: nat)
    requires GoodParser(parse) && Contents(parse, text).Some?
    ensures Contents(parse, Compacted(parse, text, today)) == Some(Kept(Contents(parse, text).value, today))
    ensures Appendable(text) ==> Appendable(Compacted(parse, text, today))
  {
    hide Render, NonBlank, LinesFrom, LinesOf, Sound, Line, Unfinished;
    if text.Some? {
      var lines, es := LinesFrom("", text.value).value, Contents(parse, text).value;
      KeptAreSound(parse, lines, today);
      ReadBack(parse, Kept(es, today));
      RenderIsFinished(Kept(es, today));
      BlanksDoNotMatter(parse, lines);
      RecordsOfLines(parse, Kept(es, today));
    }
  }

  /** The file is left as it is exactly when its lines other than blank ones are the kept records
      as the program writes them. */
  lemma LeftAloneIff(parse: Parser, text: Option<string>, today: nat)
    requires GoodParser(parse) && Contents(parse, text).Some? && text.Some?
    ensures Compacted(parse, text, today) == text
            <==> NonBlank(LinesFrom("", text.value).value) == LinesOf(Kept(Contents(parse, text).value, today))
  {
    hide Render, NonBlank, LinesFrom, LinesOf, Sound, Line;
    var lines, es := LinesFrom("", text.value).value, Contents(parse, text).value;
    KeptAreSound(parse, lines, today);
    ReadBack(parse, Kept(es, today));
    NoBlankLines(Kept(es, today));
  }

  lemma KeptAreSound(parse: Parser, lines: seq<string>, today: nat)
    requires GoodParser(parse) && Records(parse, lines).Some?
    ensures forall e <- Kept(Records(parse, lines).value, today) :: Sound(e)
  {
    hide Sound, Line;
    var es := Records(parse, lines).value;
    RecordsAreSound(parse, lines);
    forall e <- Kept(es, today) ensures Sound(e) {
      KeptAnswers(es, today, e);
    }
  }

  lemma RenderIsFinished(es: seq<Entry>)
    ensures Unfinished(Render(es)) == ""
  {
    RenderEnds(es);
  }

  // ---- Appending ----

  lemma {:induction false} UnfinishedIsLast(text: string) returns (finished: string)
    ensures text == finished + Unfinished(text) && Terminated(finished)
    ensures forall k | 0 <= k < |Unfinished(text)| :: Unfinished(text)[k] != '\n'
  {
    if Terminated(text) {
      finished := text;
    } else {
      finished := UnfinishedIsLast(text[..|text| - 1]);
      assert text == finished + (Unfinished(text[..|text| - 1]) + [text[|text| - 1]]);
    }
  }

  lemma {:induction false} PrefixIsReadable(line: string, text: string, more: string)
    requires LinesFrom(line, text + more).Some?
    ensures LinesFrom(line, text).Some?
    decreases |text|
  {
    if text != "" {
      assert (text + more)[1..] == text[1..] + more;
      PrefixIsReadable(if text[0] == '\n' then "" else line + [text[0]], text[1..], more);
    }
  }

  /** A text without a newline is one line, if it can be read at all. */
  lemma {:induction false} OneUnfinishedLine(line: string, rest: string)
    requires LinesFrom(line, rest).Some? && forall k | 0 <= k < |rest| :: rest[k] != '\n'
    ensures LinesFrom(line, rest) == Some(if line + rest == "" then [] else [line + rest])
    ensures rest == "" || |line| + |rest| < LINE_SIZE
    ensures forall k | 0 <= k < |rest| :: rest[k] != '\0'
    decreases |rest|
  {
    if rest == "" {
      assert line + rest == line;
    } else {
      OneUnfinishedLine(line + [rest[0]], rest[1..]);
      assert line + [rest[0]] + rest[1..] == line + rest;
      assert forall k | 0 < k < |rest| :: rest[k] == rest[1..][k - 1];
    }
  }

  lemma {:induction false} TooLong(line: string, rest: string, more: string)
    requires |line| < LINE_SIZE <= |line| + |rest| && forall k | 0 <= k < |rest| :: rest[k] != '\n'
    ensures LinesFrom(line, rest + more).None?
    decreases |rest|
  {
    assert (rest + more)[1..] == rest[1..] + more;
    if |line| + 1 < LINE_SIZE {
      TooLong(line + [rest[0]], rest[1..], more);
    }
  }

  /** A record behind an unfinished line shares that line. */
  lemma JoinedLine(u: string, e: Entry)
    requires Sound(e) && LinesFrom("", u).Some? && forall k | 0 <= k < |u| :: u[k] != '\n'
    ensures LinesFrom("", u + (Line(e) + "\n")) == if |u + Line(e)| < LINE_SIZE then Some([u + Line(e)]) else None
  {
    hide Line;
    var joined := u + Line(e);
    OneUnfinishedLine("", u);
    LineHasNoBreak(e);
    assert u + (Line(e) + "\n") == joined + "\n" + "" == joined + "\n";
    if |joined| < LINE_SIZE {
      OneLine("", joined, "");
      assert "" + joined == joined;
      assert LinesFrom("", "") == Some([]);
      assert [joined] + [] == [joined];
    } else {
      TooLong("", joined, "\n");
    }
  }

  lemma LinesOfAppendedLine(text: string, e: Entry)
    returns (lines: seq<string>)
    requires Sound(e) && LinesFrom("", text).Some?
    ensures var u := Unfinished(text);
            && LinesFrom("", text).value == lines + (if u == "" then [] else [u])
            && LinesFrom("", text + (Line(e) + "\n"))
               == if |u + Line(e)| < LINE_SIZE then Some(lines + [u + Line(e)]) else None
  {
    hide Line, LinesFrom;
    var u := Unfinished(text);
    var finished := UnfinishedIsLast(text);
    var l := Line(e) + "\n";
    assert text + l == finished + (u + l);
    PrefixIsReadable("", finished, u);
    if finished == "" {
      lines := [];
      assert finished + u == u && finished + (u + l) == u + l;
      PrependNothing(LinesFrom("", u));
      PrependNothing(LinesFrom("", u + l));
    } else {
      lines := LinesFrom("", finished).value;
      LinesOfAppended("", finished, u);
      LinesOfAppended("", finished, u + l);
    }
    OneUnfinishedLine("", u);
    assert "" + u == u;
    JoinedLine(u, e);
    assert LinesFrom("", text + l) == Prepend(lines, LinesFrom("", u + l));
  }

  lemma AppendedRecord(parse: Parser, text: Option<string>, e: Entry)
    requires GoodParser(parse) && Sound(e) && Contents(parse, text).Some?
    ensures Contents(parse, Some(Before(text) + (Line(e) + "\n")))
            == if Appendable(text) then Some(Contents(parse, text).value + [e]) else None
    ensures Unfinished(Before(text) + (Line(e) + "\n")) == ""
  {
    hide Line, LinesFrom, Unfinished;
    NoText();
    var before := Before(text);
    var u := Unfinished(before);
    var lines := LinesOfAppendedLine(before, e);
    assert Records(parse, LinesFrom("", before).value) == Contents(parse, text);
    LastRecord(parse, lines, u, e);
    FinishedByNewline(before + Line(e));
    assert before + Line(e) + "\n" == before + (Line(e) + "\n");
    LineLength(e);
  }

  lemma NoText()
    ensures LinesFrom("", "") == Some([]) && Unfinished("") == ""
  {
  }

  lemma FinishedByNewline(text: string)
    ensures Unfinished(text + "\n") == ""
  {
  }

  lemma LastRecord(parse: Parser, lines: seq<string>, u: string, e: Entry)
    requires GoodParser(parse) && Sound(e)
    requires Records(parse, lines + (if u == "" then [] else [u])).Some?
    ensures Records(parse, lines + [u + Line(e)])
            == if Blank(u) then Some(Records(parse, lines + (if u == "" then [] else [u])).value + [e]) else None
  {
    hide Line;
    LineIsNotBlank(e);
    assert (lines + [u + Line(e)])[..|lines|] == lines;
    if u == "" {
      assert lines + [] == lines && u + Line(e) == Line(e);
    } else {
      assert (lines + [u])[..|lines|] == lines;
      assert |u + Line(e)| >= 2;
      assert parse(u).Some? ==> Refuses(parse, u, e);
    }
  }

  lemma LineIsNotBlank(e: Entry)
    ensures !Blank(Line(e))
  {
    assert Line(e)[0] == '{';
  }

  /** Reading back what compaction wrote gives what it kept. */
  lemma ReadBack(parse: Parser, es: seq<Entry>)
    requires GoodParser(parse) && forall e <- es :: Sound(e)
    ensures Contents(parse, Some(Render(es))) == Some(es)
    ensures LinesFrom("", Render(es)) == Some(LinesOf(es)) && Terminated(Render(es))
  {
    RenderedLines(es);
    RecordsOfLines(parse, es);
    RenderEnds(es);
  }

  lemma {:induction false} RecordsOfLines(parse: Parser, es: seq<Entry>)
    requires GoodParser(parse) && forall e <- es :: Sound(e)
    ensures Records(parse, LinesOf(es)) == Some(es)
  {
    hide Line, Sound;
    if es != [] {
      var init, last := es[..|es| - 1], es[|es| - 1];
      RecordsOfLines(parse, init);
      assert LinesOf(es)[..|es| - 1] == LinesOf(init) && LinesOf(es)[|es| - 1] == Line(last);
      assert parse(Line(last)) == Some(last);
      assert es == init + [last];
      LineIsNotBlank(last);
    }
  }

  // ---- Room for one more ----

  lemma RoomForOneMore(text: Option<string>, e: Entry)
    requires HasRoom(text) && Sound(e)
    ensures Copyable(Some(Before(text) + (Line(e) + "\n")))
  {
    LineLength(e);
  }

  function Joined(lines: seq<string>): string {
    if lines == [] then "" else lines[0] + "\n" + Joined(lines[1..])
  }

  lemma JoinedFirst(line: string, rest: seq<string>)
    ensures Joined([line] + rest) == line + ("\n" + Joined(rest))
  {
    assert ([line] + rest)[1..] == rest;
    assert line + "\n" + Joined(rest) == line + ("\n" + Joined(rest));
  }

  lemma {:induction false} TextOfLines(line: string, text: string)
    requires text != "" && Terminated(text) && LinesFrom(line, text).Some?
    ensures line + text == Joined(LinesFrom(line, text).value)
    decreases |text|
  {
    hide Joined;
    var tail := text[1..];
    assert text == [text[0]] + tail;
    if text[0] == '\n' {
      var rest := LinesFrom("", tail).value;
      JoinedFirst(line, rest);
      assert Joined(rest) == tail by {
        if tail == "" {
          JoinedNothing();
        } else {
          TextOfLines("", tail);
          assert "" + tail == tail;
        }
      }
    } else {
      TextOfLines(line + [text[0]], tail);
      assert line + [text[0]] + tail == line + text;
    }
  }

  lemma JoinedNothing()
    ensures Joined([]) == ""
  {
  }

  /** A file without blank lines whose last line is complete is exactly what compaction would
      write. */
  lemma UntouchedFileIsCompact(text: string, kept: seq<Entry>)
    requires Terminated(text) && (forall e <- kept :: Sound(e)) && LinesFrom("", text) == Some(LinesOf(kept))
    ensures text == Render(kept)
  {
    hide Line, Sound;
    RenderedLines(kept);
    RenderEnds(kept);
    assert "" + text == text && "" + Render(kept) == Render(kept);
    if text == "" {
      assert LinesOf(kept) == [];
      assert |kept| == 0;
    } else {
      TextOfLines("", text);
      assert |kept| == |LinesOf(kept)| > 0;
      AddLine(kept[..|kept| - 1], kept[|kept| - 1]);
      TextOfLines("", Render(kept));
    }
  }

  lemma {:induction false} TextIsNoLonger(line: string, text: string)
    requires LinesFrom(line, text).Some?
    ensures |line| + |text| <= |Joined(LinesFrom(line, text).value)|
    decreases |text|
  {
    hide Joined;
    if text == "" {
      JoinedNothing();
      JoinedFirst(line, []);
      assert [line] + [] == [line];
    } else if text[0] == '\n' {
      TextIsNoLonger("", text[1..]);
      JoinedFirst(line, LinesFrom("", text[1..]).value);
    } else {
      TextIsNoLonger(line + [text[0]], text[1..]);
    }
  }

  lemma RenderIsJoined(es: seq<Entry>)
    requires forall e <- es :: Sound(e)
    ensures Render(es) == Joined(LinesOf(es))
  {
    hide Line, Sound;
    RenderEnds(es);
    RenderedLines(es);
    if es != [] {
      AddLine(es[..|es| - 1], es[|es| - 1]);
      assert es[..|es| - 1] + [es[|es| - 1]] == es;
      TextOfLines("", Render(es));
      assert "" + Render(es) == Render(es);
    }
  }

  /** A successful compaction leaves room for one more record exactly when it rewrote the file or
      the file was short enough before; and that is so whenever the file has no blank line. */
  lemma RoomAfterCompaction(parse: Parser, text: Option<string>, today: nat)
    requires GoodParser(parse) && Contents(parse, text).Some? && Fits(Kept(Contents(parse, text).value, today))
    ensures HasRoom(Compacted(parse, text, today)) <==>
              HasRoom(text)
                || NonBlank(LinesFrom("", text.value).value) != LinesOf(Kept(Contents(parse, text).value, today))
    ensures text.Some? && (forall line <- LinesFrom("", text.value).value :: !Blank(line)) ==>
              HasRoom(Compacted(parse, text, today))
  {
    hide Render, NonBlank, LinesFrom, LinesOf, Sound, Line;
    NoEntries();
    if text.Some? {
      var lines, kept := LinesFrom("", text.value).value, Kept(Contents(parse, text).value, today);
      if NonBlank(lines) == LinesOf(kept) && forall line <- lines :: !Blank(line) {
        WithoutBlanks(lines);
        KeptAreSound(parse, lines, today);
        RenderIsJoined(kept);
        TextIsNoLonger("", text.value);
      }
    }
  }

  lemma NoEntries()
    ensures Render([]) == ""
  {
  }

  lemma {:induction false} WithoutBlanks(lines: seq<string>)
    requires forall line <- lines :: !Blank(line)
    ensures NonBlank(lines) == lines
  {
    if lines != [] {
      WithoutBlanks(lines[..|lines| - 1]);
      assert lines == lines[..|lines| - 1] + [lines[|lines| - 1]];
    }
  }

  function Newlines(n: nat): string {
    if n == 0 then "" else "\n" + Newlines(n - 1)
  }

  function Blanks(n: nat): seq<string> {
    if n == 0 then [] else [""] + Blanks(n - 1)
  }

  /** Blank lines are skipped without counting as a change: compaction answers Done for a file of
      any length made of them, leaves it as long as it was, so that the copy behind it can fail for ever. */
  method BlankLinesStay(parse: Parser, n: nat, today: nat) returns (ledger: Ledger, r: Outcome)
    requires GoodParser(parse)
    ensures fresh(ledger) && r == Done && ledger.text == Some(Newlines(n)) && |Newlines(n)| == n
    ensures (HasRoom(ledger.text) <==> n + RESERVE < FILE_SIZE) && (Copyable(ledger.text) <==> n < FILE_SIZE)
  {
    BlankLines(n);
    AllBlank(parse, Blanks(n));
    ledger := new Ledger(parse, Some(Newlines(n)));
    r := ledger.Compact(today, false, false, false);
  }

  lemma {:induction false} BlankLines(n: nat)
    ensures LinesFrom("", Newlines(n)) == Some(Blanks(n)) && |Newlines(n)| == n
    ensures forall k | 0 <= k < |Blanks(n)| :: Blanks(n)[k] == ""
  {
    if n > 0 {
      BlankLines(n - 1);
      assert Newlines(n)[1..] == Newlines(n - 1);
    }
  }

  lemma {:induction false} AllBlank(parse: Parser, lines: seq<string>)
    requires forall k | 0 <= k < |lines| :: lines[k] == ""
    ensures Records(parse, lines) == Some([]) && NonBlank(lines) == []
  {
    if lines != [] {
      AllBlank(parse, lines[..|lines| - 1]);
    }
  }

  /** Nor does compaction complete a last line that lacks its newline: the record appended next
      shares a line with the one before it, and every later lookup and compaction fails. */
  method UnterminatedLineIsJoined(parse: Parser, a: Entry, b: Entry)
    returns (compacted: Outcome, consumed: bool, answer: Answer, again: Outcome)
    requires GoodParser(parse) && Sound(a) && Sound(b)
    ensures compacted == Done && consumed && answer == ReadFailed && again == CannotRead
  {
    hide Line, LinesFrom, Unfinished, Sound;
    UnfinishedRecord(parse, a);
    var ledger := new Ledger(parse, Some(Line(a)));
    compacted := ledger.Compact(a.day, false, false, false);
    consumed := ledger.ConsumeNonce(b, false, 0);
    answer := ledger.CheckNonceUsed(b.day, b.nonce, b.version, false);
    again := ledger.Compact(b.day, false, false, false);
  }

  /** A rewriting that fails in the gap forgets the codes of today: with an outdated record in front
      of one of today, the compaction reports a failure, and today's code counts as unused. */
  method GapForgetsToday(parse: Parser, stale: Entry, e: Entry) returns (r: Outcome, before: Answer, after: Answer)
    requires GoodParser(parse) && Sound(stale) && Sound(e) && stale.day < e.day
    ensures before == Told(true) && r == CannotWrite && after == Told(false)
  {
    hide Line, Render, LinesFrom, Unfinished, Sound;
    TwoRecords(parse, stale, e);
    var ledger := new Ledger(parse, Some(Render([stale, e])));
    before := ledger.CheckNonceUsed(e.day, e.nonce, e.version, false);
    r := ledger.Compact(e.day, false, true, true);
    after := ledger.CheckNonceUsed(e.day, e.nonce, e.version, false);
  }

  lemma TwoRecords(parse: Parser, stale: Entry, e: Entry)
    requires GoodParser(parse) && Sound(stale) && Sound(e) && stale.day < e.day
    ensures Contents(parse, Some(Render([stale, e]))) == Some([stale, e])
    ensures Fits(Kept([stale, e], e.day))
    ensures Compacted(parse, Some(Render([stale, e])), e.day) != Some(Render([stale, e]))
  {
    hide Line, Sound;
    var both := [stale, e];
    ReadBack(parse, both);
    assert both[..1] == [stale] && [stale][..0] == [];
    assert Kept([stale], e.day) == Kept([], e.day) == [];
    assert Kept(both, e.day) == [] + [e] == [e];
    AddLine([], e);
    assert [] + [e] == [e];
    LineLength(e);
    LeftAloneIff(parse, Some(Render(both)), e.day);
    NoBlankLines(both);
    assert |LinesOf(both)| == 2 && |LinesOf([e])| == 1;
  }

  lemma UnfinishedRecord(parse: Parser, a: Entry)
    requires GoodParser(parse) && Sound(a)
    ensures Contents(parse, Some(Line(a))) == Some([a]) && !Appendable(Some(Line(a)))
    ensures Compacted(parse, Some(Line(a)), a.day) == Some(Line(a)) && Fits(Kept([a], a.day))
  {
    hide Line;
    LineLength(a);
    LineHasNoBreak(a);
    LineIsNotBlank(a);
    LastLine("", Line(a));
    assert "" + Line(a) == Line(a);
    assert [a][..0] == [] && [Line(a)][..0] == [];
    assert Kept([a], a.day) == [] + [a] == [a];
    assert Records(parse, [Line(a)]) == Some([a]);
    assert NonBlank([Line(a)]) == [Line(a)] == LinesOf([a]);
    assert Render([a]) == Render([]) + Line(a) + "\n";
    AllUnfinished(Line(a));
  }

  lemma {:induction false} AllUnfinished(text: string)
    requires forall k | 0 <= k < |text| :: text[k] != '\n'
    ensures Unfinished(text) == text
  {
    if text != "" {
      AllUnfinished(text[..|text| - 1]);
    }
  }

  lemma {:induction false} LastLine(line: string, rest: string)
    requires forall k | 0 <= k < |rest| :: rest[k] != '\n' && rest[k] != '\0'
    requires |line| + |rest| < LINE_SIZE
    ensures LinesFrom(line, rest) == Some(if line + rest == "" then [] else [line + rest])
    decreases |rest|
  {
    if rest == "" {
      assert line + rest == line;
    } else {
      LastLine(line + [rest[0]], rest[1..]);
      assert line + [rest[0]] + rest[1..] == line + rest;
    }
  }
}
