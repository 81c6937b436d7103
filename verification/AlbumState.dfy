/** The record of an album transaction, printed with snprintf and read back with sscanf
    (companion/album_restriction.c). */
module AlbumState {
  import opened Decimals
  import opened Wrappers

  const STATE_SIZE: nat := 320
  const PHASE_WIDTH: nat := 31
  const SUM_MODULUS: nat := 0x1_0000_0000_0000_0000

  /** A checksum is an unsigned long of 64 bits. */
  type Sum = n: int | 0 <= n < SUM_MODULUS

  /** Nothing is asked of it: two texts may have the same one. */
  type Checksum = string -> Sum

  datatype Phase = Enabling | Configured | Restoring | RollbackRequired

  datatype Transaction = Transaction(phase: Phase, overrideExisted: bool, packageExisted: bool,
                                     overrideSum: Sum, packageSum: Sum, targetSum: Sum)

  // ---- Printing ----

  function PhaseName(phase: Phase): string {
    match phase
    case Enabling => "enabling"
    case Configured => "configured"
    case Restoring => "restoring"
    case RollbackRequired => "rollback_required"
  }

  function Flag(b: bool): nat {
    if b then 1 else 0
  }

  datatype Name = PhaseWord | OverrideExisted | PackageExisted | OverrideSum | PackageSum | TargetSum

  function Word(name: Name): string {
    match name
    case PhaseWord => "phase="
    case OverrideExisted => "override_existed="
    case PackageExisted => "package_existed="
    case OverrideSum => "override_hash="
    case PackageSum => "package_hash="
    case TargetSum => "target_hash="
  }

  /** Every label stands on a line of its own. */
  function Label(name: Name): string {
    "\n" + Word(name)
  }

  function Version(): string {
    "version=1"
  }

  function Field(name: Name, n: nat, rest: string): string {
    Label(name) + (Decimal(n) + rest)
  }

  function FlagsText(t: Transaction, rest: string): string {
    Field(OverrideExisted, Flag(t.overrideExisted), Field(PackageExisted, Flag(t.packageExisted), rest))
  }

  function SumsText(t: Transaction): string {
    Field(OverrideSum, t.overrideSum, Field(PackageSum, t.packageSum, Field(TargetSum, t.targetSum, "\n")))
  }

  function Format(t: Transaction): string {
    Version() + (Label(PhaseWord) + (PhaseName(t.phase) + FlagsText(t, SumsText(t))))
  }

  // ---- Reading ----

  predicate IsSpace(c: char) {
    c == ' ' || 9 <= c as int <= 13
  }

  function SkipSpace(text: string): string {
    if text != "" && IsSpace(text[0]) then SkipSpace(text[1..]) else text
  }

  /** What is left behind the directives without a conversion: a blank skips any number of blanks,
      every other character must be there. */
  function Match(text: string, format: string): Option<string>
    decreases format
  {
    if format == "" then Some(text)
    else if IsSpace(format[0]) then Match(SkipSpace(text), format[1..])
    else if text != "" && text[0] == format[0] then Match(text[1..], format[1..])
    else None
  }

  function WordLength(text: string, width: nat): (n: nat)
    ensures n <= |text|
  {
    if width == 0 || text == "" || text[0] == '\n' then 0 else 1 + WordLength(text[1..], width - 1)
  }

  /** A word of at least one character that ends before a newline or at its greatest width. */
  function ReadWord(text: string): Option<(string, string)> {
    var n := WordLength(text, PHASE_WIDTH);
    if n == 0 then None else Some((text[..n], text[n..]))
  }

  /** An optional sign and at least one digit, behind any number of blanks. */
  function ReadNumber(text: string): Option<(int, string)> {
    var start := SkipSpace(text);
    var signed := start != "" && start[0] in {'+', '-'};
    var digits := if signed then start[1..] else start;
    var n := LeadingDigits(digits);
    if n == 0 then None
    else
      var v: int := ValueOf(digits[..n]);
      Some((if signed && start[0] == '-' then 0 - v else v, digits[n..]))
  }

  /** An unsigned number: a sign wraps it around, and what does not fit becomes the greatest one. */
  function ToSum(v: int): Sum {
    if 0 < v + SUM_MODULUS && v < SUM_MODULUS then v % SUM_MODULUS else SUM_MODULUS - 1
  }

  function PhaseOf(name: string): Option<Phase> {
    if name == "enabling" then Some(Enabling)
    else if name == "configured" then Some(Configured)
    else if name == "restoring" then Some(Restoring)
    else if name == "rollback_required" then Some(RollbackRequired)
    else None
  }

  /** A number behind its label. */
  function ReadField(text: string, name: Name): Option<(int, string)> {
    var value :- Match(text, Label(name));
    ReadNumber(value)
  }

  function ReadFlags(text: string): Option<((int, int), string)> {
    var (override, rest) :- ReadField(text, OverrideExisted);
    var (package, rest) :- ReadField(rest, PackageExisted);
    Some(((override, package), rest))
  }

  function ReadSums(text: string): Option<(Sum, Sum, Sum)> {
    var (override, rest) :- ReadField(text, OverrideSum);
    var (package, rest) :- ReadField(rest, PackageSum);
    var (target, _) :- ReadField(rest, TargetSum);
    Some((ToSum(override), ToSum(package), ToSum(target)))
  }

  function Parse(text: string): Option<Transaction> {
    var rest :- Match(text, Version());
    var rest :- Match(rest, Label(PhaseWord));
    var (word, rest) :- ReadWord(rest);
    var (flags, rest) :- ReadFlags(rest);
    var sums :- ReadSums(rest);
    var phase :- PhaseOf(word);
    if flags.0 in {0, 1} && flags.1 in {0, 1} then
      Some(Transaction(phase, flags.0 == 1, flags.1 == 1, sums.0, sums.1, sums.2))
    else None
  }

  // ---- Reading back what was printed ----

  predicate NoBlank(s: string) {
    forall c <- s :: !IsSpace(c)
  }

  lemma {:induction false} MatchWord(word: string, rest: string)
    requires NoBlank(word)
    ensures Match(word + rest, word) == Some(rest)
  {
    var text := word + rest;
    if word == "" {
      assert text == rest;
    } else {
      assert text[1..] == word[1..] + rest;
      assert word[0] in word;
      MatchWord(word[1..], rest);
    }
  }

  lemma WordsHaveNoBlank(name: Name)
    ensures NoBlank(Word(name)) && Word(name) != ""
  {
  }

  lemma VersionHasNoBlank()
    ensures NoBlank(Version())
  {
  }

  lemma MatchLabel(name: Name, rest: string)
    ensures Match(Label(name) + rest, Label(name)) == Some(rest)
  {
    hide Word, NoBlank;
    WordsHaveNoBlank(name);
    var text := Label(name) + rest;
    assert text[1..] == Word(name) + rest && Label(name)[1..] == Word(name);
    NotSkipped(Word(name), rest);
    MatchWord(Word(name), rest);
  }

  lemma NotSkipped(word: string, rest: string)
    requires NoBlank(word) && word != ""
    ensures SkipSpace("\n" + word + rest) == word + rest
  {
    assert word[0] in word;
    assert ("\n" + word + rest)[1..] == word + rest && (word + rest)[0] == word[0];
  }

  lemma {:induction false} WordEnds(word: string, rest: string, width: nat)
    requires |word| <= width && '\n' !in word && rest != "" && rest[0] == '\n'
    ensures WordLength(word + rest, width) == |word|
  {
    if word == "" {
      assert word + rest == rest;
    } else {
      assert (word + rest)[1..] == word[1..] + rest;
      WordEnds(word[1..], rest, width - 1);
    }
  }

  lemma NumberEnds(n: nat, rest: string)
    requires rest != "" && rest[0] == '\n'
    ensures ReadNumber(Decimal(n) + rest) == Some((n, rest))
  {
    ValueOfDecimal(n);
    DecimalIsDigits(n);
    var l := Decimal(n);
    assert IsDigit(l[0]) && (l + rest)[0] == l[0];
    DigitsThenRest(l, rest);
    assert (l + rest)[..|l|] == l && (l + rest)[|l|..] == rest;
  }

  lemma FieldEnds(name: Name, n: nat, rest: string)
    requires rest != "" && rest[0] == '\n'
    ensures ReadField(Field(name, n, rest), name) == Some((n, rest))
    ensures Field(name, n, rest) != "" && Field(name, n, rest)[0] == '\n'
  {
    hide Match, ReadNumber, Decimal, Word;
    MatchLabel(name, Decimal(n) + rest);
    NumberEnds(n, rest);
  }

  lemma FlagsEnd(t: Transaction, rest: string)
    requires rest != "" && rest[0] == '\n'
    ensures ReadFlags(FlagsText(t, rest)) == Some(((Flag(t.overrideExisted), Flag(t.packageExisted)), rest))
    ensures FlagsText(t, rest) != "" && FlagsText(t, rest)[0] == '\n'
  {
    hide ReadField, Field;
    FieldEnds(PackageExisted, Flag(t.packageExisted), rest);
    FieldEnds(OverrideExisted, Flag(t.overrideExisted), Field(PackageExisted, Flag(t.packageExisted), rest));
  }

  lemma SumsEnd(t: Transaction)
    ensures ReadSums(SumsText(t)) == Some((t.overrideSum, t.packageSum, t.targetSum))
    ensures SumsText(t) != "" && SumsText(t)[0] == '\n'
  {
    hide ReadField, Field;
    var target := Field(TargetSum, t.targetSum, "\n");
    FieldEnds(TargetSum, t.targetSum, "\n");
    FieldEnds(PackageSum, t.packageSum, target);
    FieldEnds(OverrideSum, t.overrideSum, Field(PackageSum, t.packageSum, target));
  }

  lemma PhaseReads(phase: Phase, rest: string)
    requires rest != "" && rest[0] == '\n'
    ensures ReadWord(PhaseName(phase) + rest) == Some((PhaseName(phase), rest))
    ensures PhaseOf(PhaseName(phase)) == Some(phase)
  {
    hide WordLength;
    var word := PhaseName(phase);
    WordEnds(word, rest, PHASE_WIDTH);
    assert (word + rest)[..|word|] == word && (word + rest)[|word|..] == rest;
  }

  /** Every record reads back as it was written, from whatever phase and checksums. */
  lemma ParseOfFormat(t: Transaction)
    ensures Parse(Format(t)) == Some(t)
  {
    hide Match, ReadWord, ReadFlags, ReadSums, FlagsText, SumsText, PhaseName, PhaseOf;
    hide Version, Label, Word, NoBlank;
    VersionHasNoBlank();
    SumsEnd(t);
    FlagsEnd(t, SumsText(t));
    MatchWord(Version(), Label(PhaseWord) + (PhaseName(t.phase) + FlagsText(t, SumsText(t))));
    MatchLabel(PhaseWord, PhaseName(t.phase) + FlagsText(t, SumsText(t)));
    PhaseReads(t.phase, FlagsText(t, SumsText(t)));
  }

  // ---- The size of a record ----

  lemma SumLength(sum: Sum)
    ensures |Decimal(sum)| <= 20
  {
    assert Pow10(4) == 10_000;
    assert Pow10(8) == 100_000_000;
    assert Pow10(12) == 1_000_000_000_000;
    assert Pow10(16) == 10_000_000_000_000_000;
    assert Pow10(20) == 100_000_000_000_000_000_000;
    DecimalLength(sum, 20);
  }

  lemma FieldFits(name: Name, n: nat, rest: string)
    requires |Decimal(n)| <= 20 && '\0' !in rest
    ensures |Field(name, n, rest)| <= 38 + |rest| && '\0' !in Field(name, n, rest)
  {
    DecimalIsDigits(n);
    assert '\0' !in Decimal(n);
    assert |Label(name)| <= 18 && '\0' !in Label(name);
  }

  /** Every record fits the buffer it is printed into and read from. */
  lemma FormatFits(t: Transaction)
    ensures |Format(t)| < STATE_SIZE && '\0' !in Format(t)
  {
    hide Decimal, Field;
    SumLength(t.overrideSum);
    SumLength(t.packageSum);
    SumLength(t.targetSum);
    SumLength(Flag(t.overrideExisted));
    SumLength(Flag(t.packageExisted));
    var target := Field(TargetSum, t.targetSum, "\n");
    FieldFits(TargetSum, t.targetSum, "\n");
    FieldFits(PackageSum, t.packageSum, target);
    FieldFits(OverrideSum, t.overrideSum, Field(PackageSum, t.packageSum, target));
    FieldFits(PackageExisted, Flag(t.packageExisted), SumsText(t));
    FieldFits(OverrideExisted, Flag(t.overrideExisted), Field(PackageExisted, Flag(t.packageExisted), SumsText(t)));
    PhaseFits(t.phase);
  }

  lemma PhaseFits(phase: Phase)
    ensures |Version() + Label(PhaseWord)| == 16 && '\0' !in Version() + Label(PhaseWord)
    ensures |PhaseName(phase)| <= 17 && '\0' !in PhaseName(phase)
  {
  }
}
