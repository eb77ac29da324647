/**
  The format-dispatched minutiae reader of `minutiae_reader.py`: a closed
  format enum picks one of three line grammars, each of which turns the
  stripped lines of a file into an ordered list of minutiae or fails.
  Opening and reading the file is left to the caller, who hands over its
  raw lines.
 */
module Reader {
  import opened Wrappers
  import opened Text
  import opened Numerals
  import opened Minutiae

  /** `MinutiaeFileFormat`: MINDTCT is the tool that writes NBIST files. */
  datatype FileFormat = NBIST | MINDTCT | SIMPLE | XYT

  /** The three line grammars a reader can be configured with. */
  datatype Grammar = NbistGrammar | SimpleGrammar | XytGrammar

  /**
    What the constructor is handed: Python does not enforce the annotation, so
    anything that is not a member of the enum can arrive as well.
   */
  datatype FormatArg = Known(format: FileFormat) | Unknown(value: string)

  /** A configured reader: its format and the grammar it chose for it. */
  datatype MinutiaeReader = MinutiaeReader(format: FileFormat, grammar: Grammar)

  /** NBIST angles are stored in units of 360/32 degrees. */
  const AngleUnit: real := 11.25

  /** The delimiters of an NBIST record line: the class `[:;, ]`. */
  const NbistDelims: set<char> := {':', ';', ',', ' '}

  /** `str.split(' ')` splits on single spaces. */
  const Space: set<char> := {' '}

  // ---------------------------------------------------------------------
  // Dispatch
  // ---------------------------------------------------------------------

  /**
    The constructor: NBIST and MINDTCT share one grammar, SIMPLE and XYT each
    have their own, and anything else is refused before any line is read.
   */
  function NewReader(arg: FormatArg): (r: Result<MinutiaeReader, Error>)
    ensures r.Failure? <==> arg.Unknown?
    ensures arg.Unknown? ==> r.error == Unconfigured(arg.value)
    ensures r.Success? ==> r.value.format == arg.format
    ensures r.Success? ==> (r.value.grammar == NbistGrammar <==> arg.format == NBIST || arg.format == MINDTCT)
    ensures r.Success? ==> (r.value.grammar == SimpleGrammar <==> arg.format == SIMPLE)
    ensures r.Success? ==> (r.value.grammar == XytGrammar <==> arg.format == XYT)
  {
    match arg
    case Unknown(v) => Failure(Unconfigured(v))
    case Known(f) =>
      var g := match f
        case NBIST => NbistGrammar
        case MINDTCT => NbistGrammar
        case SIMPLE => SimpleGrammar
        case XYT => XytGrammar;
      Success(MinutiaeReader(f, g))
  }

  /** Each raw line of the file with its surrounding white space removed. */
  function StripAll(raw: seq<string>): (lines: seq<string>)
    ensures |lines| == |raw|
    ensures forall i :: 0 <= i < |raw| ==> lines[i] == Strip(raw[i])
  {
    if |raw| == 0 then [] else [Strip(raw[0])] + StripAll(raw[1..])
  }

  /** `read`: strip every line, then hand the lines to the configured grammar. */
  function Read(reader: MinutiaeReader, raw: seq<string>): (r: Result<seq<Minutia>, Error>)
    ensures reader.grammar == SimpleGrammar && r.Success? ==>
      |r.value| == |raw| && forall i :: 0 <= i < |raw| ==> ParseSimpleRecord(Strip(raw[i])) == Success(r.value[i])
    ensures reader.grammar == XytGrammar && r.Success? ==>
      |r.value| == |raw| && forall i :: 0 <= i < |raw| ==> ParseXytRecord(Strip(raw[i])) == Success(r.value[i])
    ensures reader.grammar == NbistGrammar && |raw| < 3 ==> r == Failure(MissingLine(2))
    ensures reader.grammar == NbistGrammar && r.Success? ==>
      |raw| >= 3 && |r.value| == (if |raw| == 3 then 0 else |raw| - 4) && forall i :: 0 <= i < |r.value| ==> ParseNbistRecord(Strip(raw[4 + i])) == Success(r.value[i])
  {
    Parse(reader.grammar, StripAll(raw))
  }

  /** Construct a reader for `arg` and read `raw` with it. */
  function ReadFile(arg: FormatArg, raw: seq<string>): (r: Result<seq<Minutia>, Error>)
    ensures arg.Unknown? ==> r == Failure(Unconfigured(arg.value))
    ensures arg.Known? && arg.format in {SIMPLE, XYT} && r.Success? ==> |r.value| == |raw|
    ensures arg.Known? && arg.format in {NBIST, MINDTCT} && r.Success? ==>
      |raw| >= 3 && |r.value| == (if |raw| == 3 then 0 else |raw| - 4)
  {
    var reader :- NewReader(arg);
    Read(reader, raw)
  }

  function Parse(g: Grammar, lines: seq<string>): Result<seq<Minutia>, Error>
  {
    match g
    case NbistGrammar => ParseNbist(lines)
    case SimpleGrammar => ParseSimple(lines)
    case XytGrammar => ParseXyt(lines)
  }

  // ---------------------------------------------------------------------
  // Field access, numerals and type tags, failing as Python does
  // ---------------------------------------------------------------------

  /** `sym[i]`, or the `IndexError` a short line raises. */
  function Field(sym: seq<string>, i: nat): (r: Result<string, Error>)
    ensures r.Success? <==> i < |sym|
    ensures r.Success? ==> r.value == sym[i]
    ensures r.Failure? ==> r.error == MissingToken(i)
  {
    if i < |sym| then Success(sym[i]) else Failure(MissingToken(i))
  }

  /** `int(tok)`, or the `ValueError` naming the token. */
  function Int(tok: string): (r: Result<int, Error>)
    ensures r.Success? <==> ParseInt(tok).Some?
    ensures r.Success? ==> r.value == ParseInt(tok).value
    ensures r.Failure? ==> r.error == BadNumeral(tok)
  {
    match ParseInt(tok)
    case Some(n) => Success(n)
    case None => Failure(BadNumeral(tok))
  }

  /** `float(tok)`, or the `ValueError` naming the token. */
  function Real(tok: string): (r: Result<real, Error>)
    ensures r.Success? <==> ParseReal(tok).Some?
    ensures r.Success? ==> r.value == ParseReal(tok).value
    ensures r.Failure? ==> r.error == BadNumeral(tok)
  {
    match ParseReal(tok)
    case Some(v) => Success(v)
    case None => Failure(BadNumeral(tok))
  }

  /** The tag every grammar uses for a bifurcation. */
  const BifurcationTag: string := "BIF"

  /** The tags NBIST and SIMPLE use for a ridge ending. */
  const NbistEndingTag: string := "RIG"
  const SimpleEndingTag: string := "END"

  /**
    The type tags of a grammar whose ridge-ending tag is `endingTag`: no tag
    is ever read as a default type.
   */
  function Kind(tag: string, endingTag: string): (r: Result<MinutiaType, Error>)
    requires endingTag != BifurcationTag
    ensures r == Success(Bifurcation) <==> tag == BifurcationTag
    ensures r == Success(RidgeEnding) <==> tag == endingTag
    ensures r.Failure? ==> r.error == CorruptFile(UnknownType(tag))
  {
    if tag == BifurcationTag then Success(Bifurcation)
    else if tag == endingTag then Success(RidgeEnding)
    else Failure(CorruptFile(UnknownType(tag)))
  }

  // ---------------------------------------------------------------------
  // One record line per grammar
  // ---------------------------------------------------------------------

  /**
    An NBIST record `idx: x, y, unit, quality, TYPE`: the type tag is looked
    at first, then x, y, the angle unit (scaled to degrees) and the quality.
   */
  function ParseNbistRecord(line: string): (r: Result<Minutia, Error>)
    ensures var t := Tokens(line, NbistDelims);
      |t| < 6 ==> r == Failure(MissingToken(5))
    ensures var t := Tokens(line, NbistDelims);
      |t| >= 6 && t[5] != "BIF" && t[5] != "RIG" ==> r == Failure(CorruptFile(UnknownType(t[5])))
    ensures var t := Tokens(line, NbistDelims);
      r.Success? <==>
        && |t| >= 6 && (t[5] == "BIF" || t[5] == "RIG")
        && ParseInt(t[1]).Some? && ParseInt(t[2]).Some?
        && ParseReal(t[3]).Some? && ParseReal(t[4]).Some?
    ensures var t := Tokens(line, NbistDelims);
      r.Success? ==> r.value == Minutia(
        ParseInt(t[1]).value, ParseInt(t[2]).value, ParseReal(t[3]).value * AngleUnit,
        if t[5] == "BIF" then Bifurcation else RidgeEnding, ParseReal(t[4]).value)
  {
    var sym := Tokens(line, NbistDelims);
    var tag :- Field(sym, 5);
    var kind :- Kind(tag, NbistEndingTag);
    var x :- Int(sym[1]);
    var y :- Int(sym[2]);
    var unit :- Real(sym[3]);
    var quality :- Real(sym[4]);
    Success(Minutia(x, y, unit * AngleUnit, kind, quality))
  }

  /**
    A SIMPLE record `x y angle TYPE quality`, split on single spaces: the
    type tag is looked at first, then x, y and the angle (already degrees);
    the quality field is only reached after those.
   */
  function ParseSimpleRecord(line: string): (r: Result<Minutia, Error>)
    ensures var s := Split(line, Space);
      |s| < 4 ==> r == Failure(MissingToken(3))
    ensures var s := Split(line, Space);
      |s| >= 4 && s[3] != "BIF" && s[3] != "END" ==> r == Failure(CorruptFile(UnknownType(s[3])))
    ensures var s := Split(line, Space);
      r.Success? <==>
        && |s| >= 5 && (s[3] == "BIF" || s[3] == "END")
        && ParseInt(s[0]).Some? && ParseInt(s[1]).Some?
        && ParseReal(s[2]).Some? && ParseReal(s[4]).Some?
    ensures var s := Split(line, Space);
      r.Success? ==> r.value == Minutia(
        ParseInt(s[0]).value, ParseInt(s[1]).value, ParseReal(s[2]).value,
        if s[3] == "BIF" then Bifurcation else RidgeEnding, ParseReal(s[4]).value)
  {
    var sym := Split(line, Space);
    var tag :- Field(sym, 3);
    var kind :- Kind(tag, SimpleEndingTag);
    var x :- Int(sym[0]);
    var y :- Int(sym[1]);
    var angle :- Real(sym[2]);
    var q :- Field(sym, 4);
    var quality :- Real(q);
    Success(Minutia(x, y, angle, kind, quality))
  }

  /**
    An XYT record `x y angle quality`, split on single spaces; the format
    has no type, and every record is a ridge ending.
   */
  function ParseXytRecord(line: string): (r: Result<Minutia, Error>)
    ensures var s := Split(line, Space);
      ParseInt(s[0]).None? ==> r == Failure(BadNumeral(s[0]))
    ensures var s := Split(line, Space);
      r.Success? <==>
        && |s| >= 4
        && ParseInt(s[0]).Some? && ParseInt(s[1]).Some?
        && ParseReal(s[2]).Some? && ParseReal(s[3]).Some?
    ensures var s := Split(line, Space);
      r.Success? ==> r.value == Minutia(
        ParseInt(s[0]).value, ParseInt(s[1]).value, ParseReal(s[2]).value,
        RidgeEnding, ParseReal(s[3]).value)
  {
    var sym := Split(line, Space);
    var x :- Int(sym[0]);
    var ys :- Field(sym, 1);
    var y :- Int(ys);
    var a :- Field(sym, 2);
    var angle :- Real(a);
    var q :- Field(sym, 3);
    var quality :- Real(q);
    Success(Minutia(x, y, angle, RidgeEnding, quality))
  }

  /**
    The loop over record lines with the grammar's line parser: it succeeds
    exactly when every line does, and then the i-th minutia is the one read
    from the i-th line.
   */
  function ParseRecords(parse: string -> Result<Minutia, Error>, lines: seq<string>): (r: Result<seq<Minutia>, Error>)
    ensures r.Success? <==> forall i :: 0 <= i < |lines| ==> parse(lines[i]).Success?
    ensures r.Success? ==> |r.value| == |lines|
    ensures r.Success? ==> forall i :: 0 <= i < |lines| ==> parse(lines[i]) == Success(r.value[i])
  {
    if |lines| == 0 then Success([])
    else
      var m :- parse(lines[0]);
      var rest :- ParseRecords(parse, lines[1..]);
      assert forall i :: 1 <= i < |lines| ==> lines[i] == lines[1..][i - 1];
      Success([m] + rest)
  }

  /** `lines[4:]`: Python's slice is empty when the file is shorter. */
  function RecordLines(lines: seq<string>): (r: seq<string>)
    ensures |lines| >= 4 ==> |r| == |lines| - 4
    ensures |lines| < 4 ==> r == []
    ensures forall i :: 0 <= i < |r| ==> r[i] == lines[4 + i]
  {
    if |lines| >= 4 then lines[4..] else []
  }

  /** `int(lines[2].split(' ')[0])`: the count the NBIST header declares. */
  function DeclaredCount(lines: seq<string>): (r: Result<int, Error>)
    ensures |lines| < 3 ==> r == Failure(MissingLine(2))
    ensures |lines| >= 3 ==> r == Int(Split(lines[2], Space)[0])
    ensures r.Success? <==> |lines| >= 3 && ParseInt(Split(lines[2], Space)[0]).Some?
  {
    if |lines| < 3 then Failure(MissingLine(2)) else Int(Split(lines[2], Space)[0])
  }

  /**
    The NBIST/MINDTCT grammar: the declared count, then every record line,
    and the number read must equal the number declared.
   */
  function ParseNbist(lines: seq<string>): (r: Result<seq<Minutia>, Error>)
    ensures DeclaredCount(lines).Failure? ==> r == Failure(DeclaredCount(lines).error)
    ensures r.Success? ==> DeclaredCount(lines) == Success(|r.value|)
    ensures r.Success? ==> |r.value| == |RecordLines(lines)|
    ensures r.Success? ==>
      forall i :: 0 <= i < |r.value| ==> ParseNbistRecord(lines[4 + i]) == Success(r.value[i])
  {
    var declared :- DeclaredCount(lines);
    var minutiae :- ParseRecords(ParseNbistRecord, RecordLines(lines));
    if |minutiae| != declared then
      Failure(CorruptFile(CountMismatch(declared, |minutiae|)))
    else
      Success(minutiae)
  }

  /** The SIMPLE grammar: one minutia per line, no header and no count. */
  function ParseSimple(lines: seq<string>): (r: Result<seq<Minutia>, Error>)
    ensures r.Success? ==> |r.value| == |lines|
    ensures r.Success? ==>
      forall i :: 0 <= i < |lines| ==> ParseSimpleRecord(lines[i]) == Success(r.value[i])
  {
    ParseRecords(ParseSimpleRecord, lines)
  }

  /** The XYT grammar: one ridge ending per line, no header and no count. */
  function ParseXyt(lines: seq<string>): (r: Result<seq<Minutia>, Error>)
    ensures r.Success? ==> |r.value| == |lines|
    ensures r.Success? ==>
      forall i :: 0 <= i < |lines| ==> ParseXytRecord(lines[i]) == Success(r.value[i])
  {
    ParseRecords(ParseXytRecord, lines)
  }

  // ---------------------------------------------------------------------
  // Properties
  // ---------------------------------------------------------------------

  /**
    NBIST and MINDTCT read every file identically, SIMPLE and XYT use their
    own grammars, and an unknown selector fails whatever the file holds.
   */
  lemma ReadFileDispatch(raw: seq<string>, v: string)
    ensures ReadFile(Known(NBIST), raw) == ReadFile(Known(MINDTCT), raw) == ParseNbist(StripAll(raw))
    ensures ReadFile(Known(SIMPLE), raw) == ParseSimple(StripAll(raw))
    ensures ReadFile(Known(XYT), raw) == ParseXyt(StripAll(raw))
    ensures ReadFile(Unknown(v), raw) == Failure(Unconfigured(v))
  {
  }

  /** The first failing line decides the error; later lines are never looked at. */
  lemma {:induction false} RecordsFirstFailure(parse: string -> Result<Minutia, Error>, lines: seq<string>, k: nat)
    requires k < |lines| && parse(lines[k]).Failure?
    requires forall j :: 0 <= j < k ==> parse(lines[j]).Success?
    ensures ParseRecords(parse, lines) == Failure(parse(lines[k]).error)
  {
    if k > 0 {
      assert forall j :: 0 <= j < k - 1 ==> lines[1..][j] == lines[j + 1];
      RecordsFirstFailure(parse, lines[1..], k - 1);
      assert parse(lines[0]).Success?;
    }
  }

  /**
    An NBIST file is accepted exactly when its count line holds an integer,
    every record line parses, and there are as many record lines as declared.
   */
  lemma NbistAcceptance(lines: seq<string>)
    ensures ParseNbist(lines).Success? <==>
      && DeclaredCount(lines).Success?
      && (forall i :: 0 <= i < |RecordLines(lines)| ==> ParseNbistRecord(RecordLines(lines)[i]).Success?)
      && DeclaredCount(lines).value == |RecordLines(lines)|
  {
  }

  /** Any disagreement between the declared and the actual count, too few or too many, is corruption. */
  lemma NbistCountMismatch(lines: seq<string>)
    requires DeclaredCount(lines).Success?
    requires forall i :: 0 <= i < |RecordLines(lines)| ==> ParseNbistRecord(RecordLines(lines)[i]).Success?
    requires DeclaredCount(lines).value != |RecordLines(lines)|
    ensures ParseNbist(lines) ==
      Failure(CorruptFile(CountMismatch(DeclaredCount(lines).value, |RecordLines(lines)|)))
  {
  }

  /**
    An unknown NBIST type tag on the first bad record line fails the whole
    file as corrupt, naming the tag; no type is ever assumed. Record `k` is
    line `k + 4` of the file.
   */
  lemma NbistUnknownTag(lines: seq<string>, k: nat)
    requires DeclaredCount(lines).Success?
    requires k < |RecordLines(lines)|
    requires forall j :: 0 <= j < k ==> ParseNbistRecord(RecordLines(lines)[j]).Success?
    requires |Tokens(RecordLines(lines)[k], NbistDelims)| >= 6
    requires Tokens(RecordLines(lines)[k], NbistDelims)[5] != "BIF"
    requires Tokens(RecordLines(lines)[k], NbistDelims)[5] != "RIG"
    ensures ParseNbist(lines) ==
      Failure(CorruptFile(UnknownType(Tokens(RecordLines(lines)[k], NbistDelims)[5])))
  {
    RecordsFirstFailure(ParseNbistRecord, RecordLines(lines), k);
  }

  /** An unknown SIMPLE type tag on the first bad line fails the whole file as corrupt. */
  lemma SimpleUnknownTag(lines: seq<string>, k: nat)
    requires k < |lines|
    requires forall j :: 0 <= j < k ==> ParseSimpleRecord(lines[j]).Success?
    requires |Split(lines[k], Space)| >= 4
    requires Split(lines[k], Space)[3] != "BIF" && Split(lines[k], Space)[3] != "END"
    ensures ParseSimple(lines) == Failure(CorruptFile(UnknownType(Split(lines[k], Space)[3])))
  {
    RecordsFirstFailure(ParseSimpleRecord, lines, k);
  }

  /** Only the count line and the record lines matter: lines 0, 1 and 3 are never read. */
  lemma NbistHeaderIgnored(a: seq<string>, b: seq<string>)
    requires |a| >= 3 <==> |b| >= 3
    requires |a| >= 3 ==> a[2] == b[2]
    requires RecordLines(a) == RecordLines(b)
    ensures ParseNbist(a) == ParseNbist(b)
  {
  }

  /** Every minutia of an NBIST file carries the type its tag names; there is no default. */
  lemma NbistKindsFromTags(lines: seq<string>, i: nat)
    ensures ParseNbist(lines).Success? && i < |ParseNbist(lines).value| ==>
      var t := Tokens(lines[4 + i], NbistDelims);
      |t| >= 6 &&
      (ParseNbist(lines).value[i].kind == Bifurcation <==> t[5] == "BIF") &&
      (ParseNbist(lines).value[i].kind == RidgeEnding <==> t[5] == "RIG")
  {
  }

  /** Every minutia read from an XYT file is a ridge ending. */
  lemma XytAllRidgeEndings(lines: seq<string>)
    requires ParseXyt(lines).Success?
    ensures forall i :: 0 <= i < |lines| ==> ParseXyt(lines).value[i].kind == RidgeEnding
  {
  }

  // ---------------------------------------------------------------------
  // Round trips: records written the way the formats lay them out read back
  // ---------------------------------------------------------------------

  /** An integer numeral is a non-empty word of any of the record grammars. */
  lemma NumeralIsWord(n: int)
    ensures IntNumeral(n) != []
    ensures Word(IntNumeral(n), NbistDelims) && Word(IntNumeral(n), Space)
    ensures Trimmed(IntNumeral(n))
  {
    var s := IntNumeral(n);
    forall k | 0 <= k < |s| ensures s[k] == '-' || IsDigit(s[k]) {
      if !AllDigits(s) && k > 0 { assert s[k] == s[1..][k - 1]; }
    }
  }

  /** The integral number a whole real reads as. */
  predicate Whole(v: real) {
    v == v.Floor as real
  }

  /** A minutia whose angle and quality are whole numbers can be written exactly in SIMPLE. */
  predicate SimpleWritable(m: Minutia) {
    Whole(m.angle) && Whole(m.quality)
  }

  /** A minutia whose angle is a whole number of units and whose quality is whole can be written exactly in NBIST. */
  predicate NbistWritable(m: Minutia) {
    Whole(m.angle / AngleUnit) && Whole(m.quality)
  }

  /** The tag a grammar with ridge-ending tag `endingTag` writes for a kind. */
  function Tag(kind: MinutiaType, endingTag: string): (tag: string)
    requires endingTag != BifurcationTag
    ensures Kind(tag, endingTag) == Success(kind)
  {
    match kind
    case Bifurcation => BifurcationTag
    case RidgeEnding => endingTag
  }

  /** The SIMPLE line `x y angle TYPE quality` of a minutia. */
  function SimpleLine(m: Minutia): string
    requires SimpleWritable(m)
  {
    Join([IntNumeral(m.x), IntNumeral(m.y), IntNumeral(m.angle.Floor), Tag(m.kind, SimpleEndingTag),
          IntNumeral(m.quality.Floor)], ' ')
  }

  /** The XYT line `x y angle quality` of a minutia. */
  function XytLine(m: Minutia): string
    requires SimpleWritable(m)
  {
    Join([IntNumeral(m.x), IntNumeral(m.y), IntNumeral(m.angle.Floor), IntNumeral(m.quality.Floor)], ' ')
  }

  /** The NBIST record `idx x y unit quality TYPE` of a minutia, fields separated by `sep`. */
  function NbistLine(idx: nat, m: Minutia, sep: char): string
    requires NbistWritable(m)
  {
    Join([IntNumeral(idx), IntNumeral(m.x), IntNumeral(m.y), IntNumeral((m.angle / AngleUnit).Floor),
          IntNumeral(m.quality.Floor), Tag(m.kind, NbistEndingTag)], sep)
  }

  /** `float()` of the numeral of a whole real is that real. */
  lemma WholeRoundTrip(v: real)
    requires Whole(v)
    ensures ParseReal(IntNumeral(v.Floor)) == Some(v)
  {
    IntRoundTrip(v.Floor);
    ParseRealOfInteger(IntNumeral(v.Floor));
  }

  /** A SIMPLE line written for a minutia reads back as that minutia. */
  lemma SimpleRecordRoundTrip(m: Minutia)
    requires SimpleWritable(m)
    ensures ParseSimpleRecord(SimpleLine(m)) == Success(m)
  {
    var words := [IntNumeral(m.x), IntNumeral(m.y), IntNumeral(m.angle.Floor), Tag(m.kind, SimpleEndingTag),
                  IntNumeral(m.quality.Floor)];
    NumeralIsWord(m.x);
    NumeralIsWord(m.y);
    NumeralIsWord(m.angle.Floor);
    NumeralIsWord(m.quality.Floor);
    assert Word(Tag(m.kind, SimpleEndingTag), Space);
    SplitJoin(words, ' ', Space);
    IntRoundTrip(m.x);
    IntRoundTrip(m.y);
    WholeRoundTrip(m.angle);
    WholeRoundTrip(m.quality);
  }

  /** An XYT line written for a ridge ending reads back as that ridge ending. */
  lemma XytRecordRoundTrip(m: Minutia)
    requires SimpleWritable(m) && m.kind == RidgeEnding
    ensures ParseXytRecord(XytLine(m)) == Success(m)
  {
    var words := [IntNumeral(m.x), IntNumeral(m.y), IntNumeral(m.angle.Floor), IntNumeral(m.quality.Floor)];
    NumeralIsWord(m.x);
    NumeralIsWord(m.y);
    NumeralIsWord(m.angle.Floor);
    NumeralIsWord(m.quality.Floor);
    SplitJoin(words, ' ', Space);
    IntRoundTrip(m.x);
    IntRoundTrip(m.y);
    WholeRoundTrip(m.angle);
    WholeRoundTrip(m.quality);
  }

  /** An NBIST record written for a minutia, with any of the record delimiters, reads back as that minutia. */
  lemma NbistRecordRoundTrip(idx: nat, m: Minutia, sep: char)
    requires NbistWritable(m) && sep in NbistDelims
    ensures ParseNbistRecord(NbistLine(idx, m, sep)) == Success(m)
  {
    var unit := (m.angle / AngleUnit).Floor;
    var words := [IntNumeral(idx), IntNumeral(m.x), IntNumeral(m.y), IntNumeral(unit),
                  IntNumeral(m.quality.Floor), Tag(m.kind, NbistEndingTag)];
    NumeralIsWord(idx);
    NumeralIsWord(m.x);
    NumeralIsWord(m.y);
    NumeralIsWord(unit);
    NumeralIsWord(m.quality.Floor);
    assert Word(Tag(m.kind, NbistEndingTag), NbistDelims);
    TokensJoin(words, sep, NbistDelims);
    IntRoundTrip(m.x);
    IntRoundTrip(m.y);
    WholeRoundTrip(m.angle / AngleUnit);
    WholeRoundTrip(m.quality);
    NbistRecordReads(NbistLine(idx, m, sep), words, m);
  }

  /** A record whose tokens hold the minutia's tag and numerals in the right places reads as that minutia. */
  lemma NbistRecordReads(line: string, t: seq<string>, m: Minutia)
    requires Tokens(line, NbistDelims) == t && |t| >= 6 && t[5] == Tag(m.kind, NbistEndingTag)
    requires ParseInt(t[1]) == Some(m.x) && ParseInt(t[2]) == Some(m.y)
    requires ParseReal(t[3]) == Some(m.angle / AngleUnit) && ParseReal(t[4]) == Some(m.quality)
    ensures ParseNbistRecord(line) == Success(m)
  {
    UnitsToDegrees(m);
  }

  /** Scaling a minutia's angle to units and back recovers the minutia. */
  lemma UnitsToDegrees(m: Minutia)
    ensures Minutia(m.x, m.y, (m.angle / AngleUnit) * AngleUnit, m.kind, m.quality) == m
  {
    assert (m.angle / AngleUnit) * AngleUnit == m.angle;
  }

  /** The lines of a SIMPLE file holding `ms`, one minutia per line. */
  function SimpleLines(ms: seq<Minutia>): (lines: seq<string>)
    requires forall i :: 0 <= i < |ms| ==> SimpleWritable(ms[i])
    ensures |lines| == |ms|
    ensures forall i :: 0 <= i < |ms| ==> lines[i] == SimpleLine(ms[i])
  {
    seq(|ms|, i requires 0 <= i < |ms| => SimpleLine(ms[i]))
  }

  /**
    The lines of an NBIST file holding `ms`: two free header lines, the count
    line (the count, a space and a free note), a blank line, and one record
    per minutia, numbered from 0.
   */
  function NbistLines(h0: string, h1: string, note: string, ms: seq<Minutia>, sep: char): (lines: seq<string>)
    requires forall i :: 0 <= i < |ms| ==> NbistWritable(ms[i])
    ensures |lines| == |ms| + 4
    ensures lines[2] == IntNumeral(|ms|) + " " + note
    ensures forall i :: 0 <= i < |ms| ==> lines[4 + i] == NbistLine(i, ms[i], sep)
  {
    [h0, h1, IntNumeral(|ms|) + " " + note, ""] + seq(|ms|, i requires 0 <= i < |ms| => NbistLine(i, ms[i], sep))
  }

  /** Results that agree with `ms` position by position are `ms`. */
  lemma RecordsAre(parse: string -> Result<Minutia, Error>, lines: seq<string>, ms: seq<Minutia>)
    requires |lines| == |ms|
    requires forall i :: 0 <= i < |lines| ==> parse(lines[i]) == Success(ms[i])
    ensures ParseRecords(parse, lines) == Success(ms)
  {
    var r := ParseRecords(parse, lines);
    assert r.Success?;
    assert forall i :: 0 <= i < |ms| ==> r.value[i] == ms[i];
    assert r.value == ms;
  }

  /** A SIMPLE file written for `ms` reads back as `ms`. */
  lemma SimpleFileRoundTrip(ms: seq<Minutia>)
    requires forall i :: 0 <= i < |ms| ==> SimpleWritable(ms[i])
    ensures ParseSimple(SimpleLines(ms)) == Success(ms)
  {
    var lines := SimpleLines(ms);
    forall i | 0 <= i < |lines| ensures ParseSimpleRecord(lines[i]) == Success(ms[i]) {
      SimpleRecordRoundTrip(ms[i]);
    }
    RecordsAre(ParseSimpleRecord, lines, ms);
  }

  /** The count line of a written NBIST file declares the number of minutiae. */
  lemma CountLineReads(n: nat, note: string)
    ensures Int(Split(IntNumeral(n) + " " + note, Space)[0]) == Success(n)
  {
    NumeralIsWord(n);
    SplitAtDelimiter(IntNumeral(n), ' ', note, Space);
    assert IntNumeral(n) + " " + note == IntNumeral(n) + [' '] + note;
    SplitWithoutDelimiter(IntNumeral(n), Space);
    IntRoundTrip(n);
  }

  /** An NBIST file written for `ms`, whatever its header and note, reads back as `ms`. */
  lemma NbistFileRoundTrip(h0: string, h1: string, note: string, ms: seq<Minutia>, sep: char)
    requires forall i :: 0 <= i < |ms| ==> NbistWritable(ms[i])
    requires sep in NbistDelims
    ensures ParseNbist(NbistLines(h0, h1, note, ms, sep)) == Success(ms)
  {
    var lines := NbistLines(h0, h1, note, ms, sep);
    CountLineReads(|ms|, note);
    var records := RecordLines(lines);
    forall i | 0 <= i < |records| ensures ParseNbistRecord(records[i]) == Success(ms[i]) {
      assert records[i] == lines[4 + i];
      NbistRecordRoundTrip(i, ms[i], sep);
    }
    RecordsAre(ParseNbistRecord, records, ms);
  }

  /** The lines of an XYT file holding `ms`, one ridge ending per line. */
  function XytLines(ms: seq<Minutia>): (lines: seq<string>)
    requires forall i :: 0 <= i < |ms| ==> SimpleWritable(ms[i])
    ensures |lines| == |ms|
    ensures forall i :: 0 <= i < |ms| ==> lines[i] == XytLine(ms[i])
  {
    seq(|ms|, i requires 0 <= i < |ms| => XytLine(ms[i]))
  }

  /** An XYT file written for ridge endings `ms` reads back as `ms`. */
  lemma XytFileRoundTrip(ms: seq<Minutia>)
    requires forall i :: 0 <= i < |ms| ==> SimpleWritable(ms[i]) && ms[i].kind == RidgeEnding
    ensures ParseXyt(XytLines(ms)) == Success(ms)
  {
    var lines := XytLines(ms);
    forall i | 0 <= i < |lines| ensures ParseXytRecord(lines[i]) == Success(ms[i]) {
      XytRecordRoundTrip(ms[i]);
    }
    RecordsAre(ParseXytRecord, lines, ms);
  }

  /** Stripping changes nothing in lines that neither start nor end with white space. */
  lemma StripAllTrimmed(raw: seq<string>)
    requires forall i :: 0 <= i < |raw| ==> Trimmed(raw[i])
    ensures StripAll(raw) == raw
  {
    forall i | 0 <= i < |raw| ensures StripAll(raw)[i] == raw[i] {
      StripTrimmed(raw[i]);
    }
  }

  /** A written line of numerals and a tag neither starts nor ends with white space. */
  lemma JoinedNumeralsTrimmed(words: seq<string>, sep: char)
    requires |words| > 0
    requires forall i :: 0 <= i < |words| ==> words[i] != [] && Trimmed(words[i])
    ensures Trimmed(Join(words, sep))
  {
    JoinEnds(words, sep);
  }

  /** A written SIMPLE line neither starts nor ends with white space. */
  lemma SimpleLineTrimmed(m: Minutia)
    requires SimpleWritable(m)
    ensures Trimmed(SimpleLine(m))
  {
    NumeralIsWord(m.x);
    NumeralIsWord(m.y);
    NumeralIsWord(m.angle.Floor);
    NumeralIsWord(m.quality.Floor);
    JoinedNumeralsTrimmed([IntNumeral(m.x), IntNumeral(m.y), IntNumeral(m.angle.Floor), Tag(m.kind, SimpleEndingTag),
                           IntNumeral(m.quality.Floor)], ' ');
  }

  /** A written XYT line neither starts nor ends with white space. */
  lemma XytLineTrimmed(m: Minutia)
    requires SimpleWritable(m)
    ensures Trimmed(XytLine(m))
  {
    NumeralIsWord(m.x);
    NumeralIsWord(m.y);
    NumeralIsWord(m.angle.Floor);
    NumeralIsWord(m.quality.Floor);
    JoinedNumeralsTrimmed([IntNumeral(m.x), IntNumeral(m.y), IntNumeral(m.angle.Floor),
                           IntNumeral(m.quality.Floor)], ' ');
  }

  /** `read` with the SIMPLE reader returns the minutiae a SIMPLE file was written for. */
  lemma ReadSimpleRoundTrip(ms: seq<Minutia>)
    requires forall i :: 0 <= i < |ms| ==> SimpleWritable(ms[i])
    ensures ReadFile(Known(SIMPLE), SimpleLines(ms)) == Success(ms)
  {
    var lines := SimpleLines(ms);
    forall i | 0 <= i < |lines| ensures Trimmed(lines[i]) {
      SimpleLineTrimmed(ms[i]);
    }
    StripAllTrimmed(lines);
    SimpleFileRoundTrip(ms);
  }

  /** `read` with the XYT reader returns the ridge endings an XYT file was written for. */
  lemma ReadXytRoundTrip(ms: seq<Minutia>)
    requires forall i :: 0 <= i < |ms| ==> SimpleWritable(ms[i]) && ms[i].kind == RidgeEnding
    ensures ReadFile(Known(XYT), XytLines(ms)) == Success(ms)
  {
    var lines := XytLines(ms);
    forall i | 0 <= i < |lines| ensures Trimmed(lines[i]) {
      XytLineTrimmed(ms[i]);
    }
    StripAllTrimmed(lines);
    XytFileRoundTrip(ms);
  }
}
