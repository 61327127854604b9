/**
 * `RecordsUploader`: turns the lines of an uploaded file into records, or
 * into the message of the first violation it meets.
 *
 * The lines are a sequence; its end stands for `readLine()` returning null.
 */
module RecordsUploader {
  import opened Wrappers
  import opened JavaText
  import opened Records

  const HeaderFields: seq<string> := ["PRIMARY_KEY", "NAME", "DESCRIPTION", "UPDATED_TIMESTAMP"]
  const HeaderLine: string := "PRIMARY_KEY" + "," + "NAME" + "," + "DESCRIPTION" + "," + "UPDATED_TIMESTAMP"

  const HeaderEmptyError: string := "Header's line cannot be empty"
  const MissingTerminatorError: string := "Last line in the file must be empty but was not."

  function HeaderCountError(count: nat): string {
    "Header does not contains enough fields. Expected 4, received " + LongToString(count)
  }

  function HeaderFieldError(index: nat, name: string, value: string): string {
    "Header's field at index " + LongToString(index) + " should be " + name + " but was " + value
  }

  function FieldCountError(lineNumber: int, count: nat): string {
    "Line number " + LongToString(lineNumber) + " does not contains enough fields. Expected 4, received "
      + LongToString(count)
  }

  function PrimaryKeyEmptyError(lineNumber: int): string {
    "Line number " + LongToString(lineNumber) + " PRIMARY_KEY is empty but cannot."
  }

  function TimestampError(lineNumber: int): string {
    "Timestamp at line number " + LongToString(lineNumber) + " is of incorrect format."
  }

  function RecordError(lineNumber: int): string {
    "Record at line " + LongToString(lineNumber) + " cannot be parsed correctly."
  }

  function TrailingContentError(blankLine: int): string {
    "Only last line in the file can be empty however line " + LongToString(blankLine)
      + "  was also empty, i.e. is following by not empty one."
  }

  // ---------------------------------------------------------------------------
  // The header line
  // ---------------------------------------------------------------------------

  /** `checkHeaderField`: the field must equal the expected name exactly, untrimmed. */
  function CheckHeaderField(name: string, value: string, index: nat): (o: Outcome<string>)
    ensures o.Pass? <==> name == value
    ensures o.Fail? ==> o.error == HeaderFieldError(index, name, value)
  {
    if name == value then Pass else Fail(HeaderFieldError(index, name, value))
  }

  /** A string holding a comma is not blank. */
  lemma CommaNotBlank(s: string)
    ensures ',' in s ==> !IsBlank(s)
  {
    if ',' in s {
      var k :| 0 <= k < |s| && s[k] == ',';
      assert !Trimmable(s[k]);
    }
  }

  /**
   * `validateHeaderLine`: a missing or blank line, then a field count other
   * than 4 under `String.split(",")`, then the first field (in index order)
   * that differs from the expected name, each fail with their own message.
   */
  function ValidateHeaderLine(line: Option<string>): (o: Outcome<string>)
    ensures o.Pass? <==> line.Some? && JavaSplit(line.value) == HeaderFields
    ensures line.None? || IsBlank(line.value) ==> o == Fail(HeaderEmptyError)
    ensures line.Some? && !IsBlank(line.value) && |JavaSplit(line.value)| != 4 ==>
              o == Fail(HeaderCountError(|JavaSplit(line.value)|))
    ensures line.Some? && !IsBlank(line.value) && |JavaSplit(line.value)| == 4 ==>
              forall i :: 0 <= i < 4 && JavaSplit(line.value)[i] != HeaderFields[i]
                          && (forall j :: 0 <= j < i ==> JavaSplit(line.value)[j] == HeaderFields[j]) ==>
                o == Fail(HeaderFieldError(i, HeaderFields[i], JavaSplit(line.value)[i]))
  {
    if line.Some? && !IsBlank(line.value) then
      var fields := JavaSplit(line.value);
      if |fields| != 4 then Fail(HeaderCountError(|fields|))
      else
        var c0 := CheckHeaderField("PRIMARY_KEY", fields[0], 0);
        if c0.Fail? then c0
        else
          var c1 := CheckHeaderField("NAME", fields[1], 1);
          if c1.Fail? then c1
          else
            var c2 := CheckHeaderField("DESCRIPTION", fields[2], 2);
            if c2.Fail? then c2
            else CheckHeaderField("UPDATED_TIMESTAMP", fields[3], 3)
    else if line.Some? then
      CommaNotBlank(line.value);
      Fail(HeaderEmptyError)
    else
      Fail(HeaderEmptyError)
  }

  /** `n` commas. */
  function Commas(n: nat): (s: string)
    ensures |s| == n && forall i :: 0 <= i < n ==> s[i] == ','
  {
    seq(n, _ => ',')
  }

  lemma {:induction false} JoinSnoc(fields: seq<string>, x: string)
    requires fields != []
    ensures Join(fields + [x]) == Join(fields) + [','] + x
  {
    if |fields| > 1 {
      assert (fields + [x])[1..] == fields[1..] + [x];
      JoinSnoc(fields[1..], x);
    }
  }

  lemma {:induction false} JoinEmpties(fields: seq<string>, n: nat)
    requires fields != []
    ensures Join(fields + Empties(n)) == Join(fields) + Commas(n)
  {
    if n > 0 {
      var e := fields + Empties(n - 1);
      JoinEmpties(fields, n - 1);
      assert fields + Empties(n) == e + [[]];
      JoinSnoc(e, []);
      assert Join(e + [[]]) == Join(e) + [','];
      assert Commas(n) == Commas(n - 1) + [','];
    }
    else {
      assert fields + Empties(0) == fields;
    }
  }

  lemma JoinHeaderFields()
    ensures Join(HeaderFields) == HeaderLine
  {
    assert HeaderFields[3..] == ["UPDATED_TIMESTAMP"];
    assert HeaderFields[2..] == ["DESCRIPTION"] + HeaderFields[3..];
    assert HeaderFields[1..] == ["NAME"] + HeaderFields[2..];
  }

  /**
   * Because `String.split` drops trailing empty fields, the header is
   * accepted exactly when it is the expected line followed by any number of
   * commas (none included).
   */
  lemma HeaderAccepted(s: string)
    ensures ValidateHeaderLine(Some(s)).Pass? <==>
              |s| >= |HeaderLine| && s == HeaderLine + Commas(|s| - |HeaderLine|)
  {
    if ValidateHeaderLine(Some(s)).Pass? {
      AcceptedHeaderShape(s);
    }
    if |s| >= |HeaderLine| && s == HeaderLine + Commas(|s| - |HeaderLine|) {
      HeaderWithCommasAccepted(|s| - |HeaderLine|);
    }
  }

  lemma AcceptedHeaderShape(s: string)
    requires ValidateHeaderLine(Some(s)).Pass?
    ensures |s| >= |HeaderLine| && s == HeaderLine + Commas(|s| - |HeaderLine|)
  {
    var fs := SplitAll(s);
    assert ',' in s;
    assert DropTrailingEmpty(fs) == HeaderFields;
    var n := |fs| - 4;
    assert fs == HeaderFields + Empties(n);
    JoinSplitAll(s);
    JoinEmpties(HeaderFields, n);
    JoinHeaderFields();
  }

  lemma HeaderWithCommasAccepted(n: nat)
    ensures ValidateHeaderLine(Some(HeaderLine + Commas(n))).Pass?
  {
    var s := HeaderLine + Commas(n);
    SplitHeaderWithCommas(n);
    DropEmptiesAfterHeader(n);
    assert s[11] == ',';
    assert JavaSplit(s) == HeaderFields;
  }

  /** The header followed by `n` commas splits into the four names and `n` empty fields. */
  lemma SplitHeaderWithCommas(n: nat)
    ensures SplitAll(HeaderLine + Commas(n)) == HeaderFields + Empties(n)
  {
    var fs := HeaderFields + Empties(n);
    JoinHeaderFields();
    JoinEmpties(HeaderFields, n);
    NoCommaInHeaderFields(n);
    SplitAllJoin(fs);
  }

  lemma NoCommaInHeaderFields(n: nat)
    ensures forall i :: 0 <= i < 4 + n ==> ',' !in (HeaderFields + Empties(n))[i]
  {
    var fs := HeaderFields + Empties(n);
    forall i | 0 <= i < |fs| ensures ',' !in fs[i] {
      if i >= 4 {
        assert fs[i] == [];
      }
    }
  }

  /** `String.split` drops exactly the empty fields after the last name. */
  lemma DropEmptiesAfterHeader(n: nat)
    ensures DropTrailingEmpty(HeaderFields + Empties(n)) == HeaderFields
  {
    var fs := HeaderFields + Empties(n);
    var d := DropTrailingEmpty(fs);
    assert fs[3] != [];
    assert d == fs[..4] == HeaderFields;
  }

  // ---------------------------------------------------------------------------
  // A body line
  // ---------------------------------------------------------------------------

  /** An empty timestamp field stands for 0; any other must be a decimal `long`. */
  function ParseTimestamp(field: string): Option<Long> {
    if field == [] then Some(0) else ParseLong(field)
  }

  /**
   * `readInNextRecord`: splits with the `replace(",", ", ").split(",")`
   * idiom, then checks the field count, the primary key and the timestamp,
   * in that order.
   */
  function ReadInNextRecord(line: string, lineNumber: int): Result<Record, string> {
    var fields := JavaSplit(ReplaceComma(line));
    if |fields| != 4 then Failure(FieldCountError(lineNumber, |fields|))
    else if IsBlank(fields[0]) then Failure(PrimaryKeyEmptyError(lineNumber))
    else
      match ParseTimestamp(Trim(fields[3]))
      case None => Failure(TimestampError(lineNumber))
      case Some(timestamp) =>
        match CreateRecord(Some(Trim(fields[0])), Trim(fields[1]), Trim(fields[2]), timestamp)
        case Failure(_) => Failure(RecordError(lineNumber))
        case Success(record) => Success(record)
  }

  /**
   * What `readInNextRecord` does, stated over the plain split at every comma:
   * a line with other than 3 commas fails with its field count; otherwise a
   * blank key, then a bad timestamp, fail; otherwise the record holds the
   * trimmed fields, with a non-blank key. The record-creation failure is never
   * reached.
   */
  lemma ReadInNextRecordMeaning(line: string, lineNumber: int)
    ensures var r := ReadInNextRecord(line, lineNumber);
            var fs := SplitAll(line);
            && (CommaCount(line) != 3 ==> r == Failure(FieldCountError(lineNumber, CommaCount(line) + 1)))
            && (CommaCount(line) == 3 && IsBlank(fs[0]) ==> r == Failure(PrimaryKeyEmptyError(lineNumber)))
            && (CommaCount(line) == 3 && !IsBlank(fs[0]) && ParseTimestamp(Trim(fs[3])).None? ==>
                  r == Failure(TimestampError(lineNumber)))
            && (r.Success? <==> CommaCount(line) == 3 && !IsBlank(fs[0]) && ParseTimestamp(Trim(fs[3])).Some?)
            && (r.Success? ==>
                  && r.value == Record(Trim(fs[0]), Trim(fs[1]), Trim(fs[2]), ParseTimestamp(Trim(fs[3])).value)
                  && !IsBlank(r.value.primaryKey)
                  && Trim(r.value.primaryKey) == r.value.primaryKey)
  {
    var fields := JavaSplit(ReplaceComma(line));
    var fs := SplitAll(line);
    SplitOfReplaceComma(line);
    if |fields| == 4 {
      var key := Trim(fields[0]);
      assert key == Trim(fs[0]);
      BlankIffTrimsToEmpty(fields[0]);
      BlankIffTrimsToEmpty(fs[0]);
      if !IsBlank(fs[0]) {
        TrimIdempotent(fs[0]);
        BlankIffTrimsToEmpty(key);
        assert !IsBlank(key);
        var name, description := Trim(fields[1]), Trim(fields[2]);
        assert name == Trim(fs[1]) && description == Trim(fs[2]);
        assert Trim(fields[3]) == Trim(fs[3]);
        match ParseTimestamp(Trim(fs[3]))
        case None =>
        case Some(t) =>
          assert CreateRecord(Some(key), name, description, t) == Success(Record(key, name, description, t));
      }
    }
  }

  // ---------------------------------------------------------------------------
  // The whole file
  // ---------------------------------------------------------------------------

  /** Puts the records already read in front of the outcome of the rest. */
  function Prepend(done: seq<Record>, rest: Result<seq<Record>, string>): Result<seq<Record>, string> {
    match rest
    case Success(records) => Success(done + records)
    case Failure(e) => Failure(e)
  }

  /** A way of reading one line, given its line number, into a record. */
  type LineReader = (string, int) -> Result<Record, string>

  /**
   * The lines from index `next` on, while no blank line has been read (the
   * line at index `i` is line number `i + 1`): each non-blank line gives a
   * record through `read`, the first blank line hands over to `BlankTail`,
   * and running out of lines is an error. The loop does not depend on how a
   * line is read, so its properties are stated for any `read`.
   */
  function ParseBody(read: LineReader, lines: seq<string>, next: nat): Result<seq<Record>, string>
    requires next <= |lines|
    decreases |lines| - next
  {
    if next == |lines| then Failure(MissingTerminatorError)
    else if IsBlank(lines[next]) then BlankTail(lines, next)
    else
      match read(lines[next], next + 1)
      case Failure(e) => Failure(e)
      case Success(record) => Prepend([record], ParseBody(read, lines, next + 1))
  }

  /**
   * The lines from the blank one at index `blank` on: only blank lines may
   * follow; a non-blank one is reported against the blank line just before it.
   */
  function BlankTail(lines: seq<string>, blank: nat): Result<seq<Record>, string>
    requires blank < |lines| && IsBlank(lines[blank])
    decreases |lines| - blank
  {
    if blank + 1 == |lines| then Success([])
    else if IsBlank(lines[blank + 1]) then BlankTail(lines, blank + 1)
    else Failure(TrailingContentError(blank + 1))
  }

  /** The outcome of reading `lines`: the header (line 1), then the body from line 2. */
  function Parse(lines: seq<string>): Result<seq<Record>, string> {
    match ValidateHeaderLine(if lines == [] then None else Some(lines[0]))
    case Fail(e) => Failure(e)
    case Pass => ParseBody(ReadInNextRecord, lines, 1)
  }

  /**
   * `tryRetrieveRecords`: reads and checks the header, then the remaining
   * lines with `readInNextRecord`.
   */
  method TryRetrieveRecords(lines: seq<string>) returns (r: Result<seq<Record>, string>)
    ensures r == Parse(lines)
  {
    var header := if |lines| > 0 then Some(lines[0]) else None;
    var checked := ValidateHeaderLine(header);
    if checked.Fail? {
      return Failure(checked.error);
    }
    r := ReadBody(ReadInNextRecord, lines);
  }

  /**
   * The reading loop of `tryRetrieveRecords`, after the header: the lines are
   * read one by one, remembering whether a blank line has been read.
   */
  method ReadBody(read: LineReader, lines: seq<string>) returns (r: Result<seq<Record>, string>)
    requires |lines| >= 1
    ensures r == ParseBody(read, lines, 1)
  {
    ghost var goal := ParseBody(read, lines, 1);
    var result: seq<Record> := [];
    var emptyLineRead := false;
    var lineNumber := 2;
    var next := 1;
    ReadingStart(read, lines, goal);
    while next < |lines|
      invariant Reading(read, lines, goal, result, next, emptyLineRead)
      invariant lineNumber == next + 1
    {
      var line := lines[next];
      if IsBlank(line) {
        ReadingBlank(read, lines, goal, result, next, emptyLineRead);
        emptyLineRead := true;
      } else {
        if !emptyLineRead {
          var record := read(line, lineNumber);
          if record.Failure? {
            ReadingFails(read, lines, goal, result, next);
            return Failure(record.error);
          }
          ReadingRecord(read, lines, goal, result, next);
          result := result + [record.value];
          emptyLineRead := false;
        } else {
          ReadingTrailing(read, lines, goal, result, next);
          return Failure(TrailingContentError(lineNumber - 1));
        }
      }
      lineNumber := lineNumber + 1;
      next := next + 1;
    }
    ReadingDone(read, lines, goal, result, emptyLineRead);
    if emptyLineRead {
      r := Success(result);
    } else {
      r := Failure(MissingTerminatorError);
    }
  }

  /**
   * The invariant of the reading loop, where `goal` is the outcome of the
   * whole body: lines up to index `next` have been read into `result`;
   * before a blank line the rest is still to be parsed, after one (at index
   * `next - 1`) only blank lines may follow.
   */
  ghost predicate Reading(read: LineReader, lines: seq<string>, goal: Result<seq<Record>, string>,
                          result: seq<Record>, next: nat, emptyLineRead: bool) {
    && 1 <= next <= |lines|
    && (!emptyLineRead ==> goal == Prepend(result, ParseBody(read, lines, next)))
    && (emptyLineRead ==>
          && 2 <= next && IsBlank(lines[next - 1])
          && goal == Prepend(result, BlankTail(lines, next - 1)))
  }

  lemma ReadingStart(read: LineReader, lines: seq<string>, goal: Result<seq<Record>, string>)
    requires |lines| >= 1 && goal == ParseBody(read, lines, 1)
    ensures Reading(read, lines, goal, [], 1, false)
  {
    if goal.Success? {
      assert [] + goal.value == goal.value;
    }
  }

  lemma ReadingBlank(read: LineReader, lines: seq<string>, goal: Result<seq<Record>, string>,
                     result: seq<Record>, next: nat, emptyLineRead: bool)
    requires Reading(read, lines, goal, result, next, emptyLineRead)
    requires next < |lines| && IsBlank(lines[next])
    ensures Reading(read, lines, goal, result, next + 1, true)
  {
    if emptyLineRead {
      BlankAfterBlank(lines, next - 1);
    }
  }

  lemma ReadingRecord(read: LineReader, lines: seq<string>, goal: Result<seq<Record>, string>,
                      result: seq<Record>, next: nat)
    requires Reading(read, lines, goal, result, next, false)
    requires next < |lines| && !IsBlank(lines[next]) && read(lines[next], next + 1).Success?
    ensures Reading(read, lines, goal, result + [read(lines[next], next + 1).value], next + 1, false)
  {
    PrependTwice(result, read(lines[next], next + 1).value, ParseBody(read, lines, next + 1));
  }

  lemma ReadingFails(read: LineReader, lines: seq<string>, goal: Result<seq<Record>, string>,
                     result: seq<Record>, next: nat)
    requires Reading(read, lines, goal, result, next, false)
    requires next < |lines| && !IsBlank(lines[next]) && read(lines[next], next + 1).Failure?
    ensures goal == Failure(read(lines[next], next + 1).error)
  {
  }

  lemma ReadingTrailing(read: LineReader, lines: seq<string>, goal: Result<seq<Record>, string>,
                        result: seq<Record>, next: nat)
    requires Reading(read, lines, goal, result, next, true)
    requires next < |lines| && !IsBlank(lines[next])
    ensures goal == Failure(TrailingContentError(next))
  {
    ContentAfterBlank(lines, next - 1);
  }

  lemma ReadingDone(read: LineReader, lines: seq<string>, goal: Result<seq<Record>, string>,
                    result: seq<Record>, emptyLineRead: bool)
    requires Reading(read, lines, goal, result, |lines|, emptyLineRead)
    ensures goal == if emptyLineRead then Success(result) else Failure(MissingTerminatorError)
  {
    if emptyLineRead {
      LastBlank(lines, |lines| - 1);
      assert result + [] == result;
    }
  }

  /** A blank last line adds no record and ends the file without error. */
  lemma LastBlank(lines: seq<string>, blank: nat)
    requires blank + 1 == |lines| && IsBlank(lines[blank])
    ensures BlankTail(lines, blank) == Success([])
  {
  }

  /** A blank line after a blank one leaves the outcome to the lines after it. */
  lemma BlankAfterBlank(lines: seq<string>, blank: nat)
    requires blank + 1 < |lines| && IsBlank(lines[blank]) && IsBlank(lines[blank + 1])
    ensures BlankTail(lines, blank) == BlankTail(lines, blank + 1)
  {
  }

  /** A non-blank line right after a blank one is reported against the blank one. */
  lemma ContentAfterBlank(lines: seq<string>, blank: nat)
    requires blank + 1 < |lines| && IsBlank(lines[blank]) && !IsBlank(lines[blank + 1])
    ensures BlankTail(lines, blank) == Failure(TrailingContentError(blank + 1))
  {
  }

  // ---------------------------------------------------------------------------
  // What the outcome is
  // ---------------------------------------------------------------------------

  /** The index of the first blank line at or after `from`, or `|lines|` when there is none. */
  function FirstBlank(lines: seq<string>, from: nat): (k: nat)
    requires from <= |lines|
    ensures from <= k <= |lines|
    ensures forall i :: from <= i < k ==> !IsBlank(lines[i])
    ensures k < |lines| ==> IsBlank(lines[k])
    decreases |lines| - from
  {
    if from == |lines| || IsBlank(lines[from]) then from else FirstBlank(lines, from + 1)
  }

  /** `BlankTail` succeeds, with no further records, exactly when every line from `blank` on is blank. */
  lemma {:induction false} BlankTailSucceeds(lines: seq<string>, blank: nat)
    requires blank < |lines| && IsBlank(lines[blank])
    ensures BlankTail(lines, blank).Success? <==> forall i :: blank <= i < |lines| ==> IsBlank(lines[i])
    ensures BlankTail(lines, blank).Success? ==> BlankTail(lines, blank).value == []
    decreases |lines| - blank
  {
    if blank + 1 < |lines| && IsBlank(lines[blank + 1]) {
      BlankTailSucceeds(lines, blank + 1);
    }
  }

  /** A non-blank line at index `j` after blank lines only is reported against line `j`, the blank one before it. */
  lemma {:induction false} BlankTailFails(lines: seq<string>, blank: nat, j: nat)
    requires blank < j < |lines| && !IsBlank(lines[j])
    requires forall i :: blank <= i < j ==> IsBlank(lines[i])
    ensures BlankTail(lines, blank) == Failure(TrailingContentError(j))
    decreases j - blank
  {
    if j > blank + 1 {
      BlankTailFails(lines, blank + 1, j);
    }
  }

  /** At a blank line the body hands over to the blank tail. */
  lemma BodyAtBlank(read: LineReader, lines: seq<string>, next: nat)
    requires next < |lines| && IsBlank(lines[next])
    ensures ParseBody(read, lines, next) == BlankTail(lines, next)
  {
  }

  /** At a non-blank line the body reads it, then goes on with the next line. */
  lemma BodyAtRecord(read: LineReader, lines: seq<string>, next: nat)
    requires next < |lines| && !IsBlank(lines[next])
    ensures ParseBody(read, lines, next) ==
              match read(lines[next], next + 1)
              case Failure(e) => Failure(e)
              case Success(record) => Prepend([record], ParseBody(read, lines, next + 1))
  {
  }

  /**
   * From index `next` on, the lines are accepted exactly when they are
   * non-blank lines that each give a record, followed by at least one blank
   * line and nothing else; the records are then those of the non-blank lines,
   * in order, one each.
   */
  lemma {:induction false} ParseBodyMeaning(read: LineReader, lines: seq<string>, next: nat)
    requires next <= |lines|
    ensures var k := FirstBlank(lines, next);
            ParseBody(read, lines, next).Success? <==>
              && k < |lines|
              && (forall i :: k <= i < |lines| ==> IsBlank(lines[i]))
              && (forall i :: next <= i < k ==> read(lines[i], i + 1).Success?)
    ensures ParseBody(read, lines, next).Success? ==>
              var records := ParseBody(read, lines, next).value;
              && |records| == FirstBlank(lines, next) - next
              && forall i :: next <= i < FirstBlank(lines, next) ==>
                   records[i - next] == read(lines[i], i + 1).value
    decreases |lines| - next
  {
    if next < |lines| {
      if IsBlank(lines[next]) {
        BlankTailSucceeds(lines, next);
      } else {
        ParseBodyMeaning(read, lines, next + 1);
      }
    }
  }

  /** Once the header is accepted, the outcome is that of the body from line 2 on. */
  lemma ParseAfterHeader(lines: seq<string>)
    requires |lines| >= 1 && ValidateHeaderLine(Some(lines[0])).Pass?
    ensures Parse(lines) == ParseBody(ReadInNextRecord, lines, 1)
  {
  }

  /**
   * `Parse` succeeds exactly when the header is accepted and the rest is zero
   * or more non-blank lines that each give a record, then one or more blank
   * lines; the records are then one per non-blank line, in line order, line
   * numbers counting the header as line 1, duplicate keys kept.
   */
  lemma ParseMeaning(lines: seq<string>)
    ensures Parse(lines).Success? <==>
              && |lines| >= 1
              && ValidateHeaderLine(Some(lines[0])).Pass?
              && var k := FirstBlank(lines, 1);
                 && k < |lines|
                 && (forall i :: k <= i < |lines| ==> IsBlank(lines[i]))
                 && (forall i :: 1 <= i < k ==> ReadInNextRecord(lines[i], i + 1).Success?)
    ensures Parse(lines).Success? ==>
              var records := Parse(lines).value;
              && |records| == FirstBlank(lines, 1) - 1
              && forall i :: 1 <= i < FirstBlank(lines, 1) ==> records[i - 1] == ReadInNextRecord(lines[i], i + 1).value
  {
    if |lines| >= 1 {
      if ValidateHeaderLine(Some(lines[0])).Pass? {
        ParseAfterHeader(lines);
      }
      ParseBodyMeaning(ReadInNextRecord, lines, 1);
    }
  }

  /** Reading records one after the other is reading them all at once. */
  lemma PrependTwice(done: seq<Record>, record: Record, rest: Result<seq<Record>, string>)
    ensures Prepend(done, Prepend([record], rest)) == Prepend(done + [record], rest)
  {
    if rest.Success? {
      assert done + ([record] + rest.value) == (done + [record]) + rest.value;
    }
  }

  /** A missing or unacceptable header fails the whole parse with the header's own message. */
  lemma ParseHeaderFails(lines: seq<string>)
    requires lines == [] || ValidateHeaderLine(Some(lines[0])).Fail?
    ensures Parse(lines) == Failure(ValidateHeaderLine(if lines == [] then None else Some(lines[0])).error)
  {
  }

  lemma {:induction false} FirstBadLine(read: LineReader, lines: seq<string>, next: nat, j: nat, e: string)
    requires next <= j < |lines|
    requires forall i :: next <= i <= j ==> !IsBlank(lines[i]) && (i < j ==> read(lines[i], i + 1).Success?)
    requires read(lines[j], j + 1) == Failure(e)
    ensures ParseBody(read, lines, next) == Failure(e)
    decreases j - next
  {
    BodyAtRecord(read, lines, next);
    if next < j {
      FirstBadLine(read, lines, next + 1, j, e);
    }
  }

  /**
   * The first line that does not give a record (before any blank line) fails
   * the parse with that line's own message.
   */
  lemma ParseFirstBadLine(lines: seq<string>, j: nat, e: string)
    requires |lines| >= 1 && ValidateHeaderLine(Some(lines[0])).Pass?
    requires 1 <= j < FirstBlank(lines, 1)
    requires forall i :: 1 <= i < j ==> ReadInNextRecord(lines[i], i + 1).Success?
    requires ReadInNextRecord(lines[j], j + 1) == Failure(e)
    ensures Parse(lines) == Failure(e)
  {
    ParseAfterHeader(lines);
    BodyFirstBadLine(lines, j, e);
  }

  lemma BodyFirstBadLine(lines: seq<string>, j: nat, e: string)
    requires 1 <= |lines| && 1 <= j < FirstBlank(lines, 1)
    requires forall i :: 1 <= i < j ==> ReadInNextRecord(lines[i], i + 1).Success?
    requires ReadInNextRecord(lines[j], j + 1) == Failure(e)
    ensures ParseBody(ReadInNextRecord, lines, 1) == Failure(e)
  {
    var read: LineReader := ReadInNextRecord;
    forall i | 1 <= i <= j ensures !IsBlank(lines[i]) && (i < j ==> read(lines[i], i + 1).Success?) {
      if i < j {
        assert ReadInNextRecord(lines[i], i + 1).Success?;
      }
    }
    assert read(lines[j], j + 1) == Failure(e);
    FirstBadLine(read, lines, 1, j, e);
  }

  /** Records read before the first blank line do not hide a failure of the blank tail. */
  lemma {:induction false} TailFailurePropagates(read: LineReader, lines: seq<string>, next: nat, k: nat)
    requires next <= k < |lines| && IsBlank(lines[k])
    requires forall i :: next <= i < k ==> !IsBlank(lines[i]) && read(lines[i], i + 1).Success?
    requires BlankTail(lines, k).Failure?
    ensures ParseBody(read, lines, next) == BlankTail(lines, k)
    decreases k - next
  {
    if k == next {
      BodyAtBlank(read, lines, next);
    } else {
      TailFailurePropagates(read, lines, next + 1, k);
      assert read(lines[next], next + 1).Success?;
      BodyAtRecord(read, lines, next);
    }
  }

  lemma TrailingContent(read: LineReader, lines: seq<string>, next: nat, k: nat, j: nat)
    requires next <= k < j < |lines|
    requires forall i :: next <= i < k ==> !IsBlank(lines[i]) && read(lines[i], i + 1).Success?
    requires forall i :: k <= i < j ==> IsBlank(lines[i])
    requires !IsBlank(lines[j])
    ensures ParseBody(read, lines, next) == Failure(TrailingContentError(j))
  {
    BlankTailFails(lines, k, j);
    TailFailurePropagates(read, lines, next, k);
  }

  /**
   * When every line up to the first blank one gives a record, a non-blank
   * line at index `j` after blank lines only fails the parse, citing line
   * number `j`: the blank line just before it.
   */
  lemma ParseTrailingContent(lines: seq<string>, j: nat)
    requires |lines| >= 1 && ValidateHeaderLine(Some(lines[0])).Pass?
    requires FirstBlank(lines, 1) < j < |lines|
    requires forall i :: 1 <= i < FirstBlank(lines, 1) ==> ReadInNextRecord(lines[i], i + 1).Success?
    requires forall i :: FirstBlank(lines, 1) <= i < j ==> IsBlank(lines[i])
    requires !IsBlank(lines[j])
    ensures Parse(lines) == Failure(TrailingContentError(j))
  {
    ParseAfterHeader(lines);
    BodyTrailingContent(lines, j);
  }

  lemma BodyTrailingContent(lines: seq<string>, j: nat)
    requires 1 <= |lines| && FirstBlank(lines, 1) < j < |lines|
    requires forall i :: 1 <= i < FirstBlank(lines, 1) ==> ReadInNextRecord(lines[i], i + 1).Success?
    requires forall i :: FirstBlank(lines, 1) <= i < j ==> IsBlank(lines[i])
    requires !IsBlank(lines[j])
    ensures ParseBody(ReadInNextRecord, lines, 1) == Failure(TrailingContentError(j))
  {
    var read: LineReader := ReadInNextRecord;
    var k := RecordsBeforeBlank(read, lines, j);
    TrailingContent(read, lines, 1, k, j);
  }

  /**
   * Restates the conditions of `BodyTrailingContent` for a `read` handle: the
   * lines before the first blank one, at index `k`, are non-blank and each
   * gives a record; blank lines follow up to index `j`.
   */
  lemma RecordsBeforeBlank(read: LineReader, lines: seq<string>, j: nat) returns (k: nat)
    requires read == ReadInNextRecord
    requires 1 <= |lines| && FirstBlank(lines, 1) < j < |lines|
    requires forall i :: 1 <= i < FirstBlank(lines, 1) ==> ReadInNextRecord(lines[i], i + 1).Success?
    requires forall i :: FirstBlank(lines, 1) <= i < j ==> IsBlank(lines[i])
    ensures k == FirstBlank(lines, 1) && 1 <= k < j
    ensures forall i :: 1 <= i < k ==> !IsBlank(lines[i]) && read(lines[i], i + 1).Success?
    ensures forall i :: k <= i < j ==> IsBlank(lines[i])
  {
    k := FirstBlank(lines, 1);
    forall i | 1 <= i < k ensures !IsBlank(lines[i]) && read(lines[i], i + 1).Success? {
      assert ReadInNextRecord(lines[i], i + 1).Success?;
    }
  }

  lemma {:induction false} MissingTerminator(read: LineReader, lines: seq<string>, next: nat)
    requires next <= |lines|
    requires forall i :: next <= i < |lines| ==> !IsBlank(lines[i]) && read(lines[i], i + 1).Success?
    ensures ParseBody(read, lines, next) == Failure(MissingTerminatorError)
    decreases |lines| - next
  {
    if next < |lines| {
      BodyAtRecord(read, lines, next);
      MissingTerminator(read, lines, next + 1);
    }
  }

  /**
   * When no line after the header is blank and every one gives a record, the
   * parse fails for want of a final blank line.
   */
  lemma ParseMissingTerminator(lines: seq<string>)
    requires |lines| >= 1 && ValidateHeaderLine(Some(lines[0])).Pass?
    requires FirstBlank(lines, 1) == |lines|
    requires forall i :: 1 <= i < |lines| ==> ReadInNextRecord(lines[i], i + 1).Success?
    ensures Parse(lines) == Failure(MissingTerminatorError)
  {
    ParseAfterHeader(lines);
    BodyMissingTerminator(lines);
  }

  lemma BodyMissingTerminator(lines: seq<string>)
    requires 1 <= |lines| && FirstBlank(lines, 1) == |lines|
    requires forall i :: 1 <= i < |lines| ==> ReadInNextRecord(lines[i], i + 1).Success?
    ensures ParseBody(ReadInNextRecord, lines, 1) == Failure(MissingTerminatorError)
  {
    var read: LineReader := ReadInNextRecord;
    forall i | 1 <= i < |lines| ensures !IsBlank(lines[i]) && read(lines[i], i + 1).Success? {
      assert ReadInNextRecord(lines[i], i + 1).Success?;
    }
    MissingTerminator(read, lines, 1);
  }

  // ---------------------------------------------------------------------------
  // An example
  // ---------------------------------------------------------------------------

  lemma SplitExample()
    ensures SplitAll("ala,,,") == ["ala", "", "", ""]
  {
    assert "ala,,," == "ala" + [','] + ("" + [','] + ("" + [','] + ""));
    SplitAllWithoutComma("");
    SplitAllAfterField("", "");
    SplitAllAfterField("", "" + [','] + "");
    SplitAllAfterField("ala", "" + [','] + ("" + [','] + ""));
  }

  lemma TrimExample()
    ensures Trim("ala") == "ala" && Trim("") == ""
  {
    assert TrimStart("ala") == "ala";
    assert TrimEnd("ala") == "ala";
  }

  /** Empty trailing fields are kept: `ala,,,` is a record with an empty name and description and timestamp 0. */
  lemma TrailingEmptyFieldsKept()
    ensures ReadInNextRecord("ala,,,", 2) == Success(Record("ala", "", "", 0))
  {
    SplitExample();
    TrimExample();
    ReadInNextRecordMeaning("ala,,,", 2);
  }
}
