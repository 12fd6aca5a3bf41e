/** The hash-chained audit trail of core/audit_sink.py.

The trail is a byte sequence. SHA-256 and the JSON codec are functions held by a `Codec`;
`Lawful` lists the few laws of theirs that are relied on. Failures of the file system are
inputs (`Faults`), so every statement below holds for every pattern of failures. */
module AuditTrail {
  import opened Wrappers

  newtype byte = x: int | 0 <= x < 256

  const NEWLINE: byte := 10

  // ----- records

  /** What `record.get(name)` yields: no key, `null`, a string, or any other JSON value. */
  datatype Field = Absent | Null | Text(text: string) | Other

  /** A JSON object, split into the two linking fields and the canonical text of the others. */
  datatype Record = Record(eventHash: Field, previousHash: Field, body: string)

  datatype Codec = Codec(
    decode: seq<byte> -> Option<Record>, // None: not UTF-8, not JSON, or not an object
    encode: Record -> seq<byte>,         // canonical JSON, without the final newline
    digest: (Field, string) -> string)   // hash of a record without its event_hash

  /** The shape `^[0-9a-f]{64}$`. */
  predicate IsDigest(s: string) {
    |s| == 64 && forall i | 0 <= i < |s| :: '0' <= s[i] <= '9' || 'a' <= s[i] <= 'f'
  }

  /** Records as `build_audit_record` makes them. */
  predicate Built(r: Record) {
    r.eventHash.Text? && (r.previousHash.Null? || r.previousHash.Text?)
  }

  ghost predicate Lawful(c: Codec) {
    && c.decode([]) == None
    && (forall r: Record :: NEWLINE !in c.encode(r))
    && (forall r: Record | Built(r) :: c.decode(c.encode(r)) == Some(r))
    && (forall p: Field, b: string :: IsDigest(c.digest(p, b)))
  }

  /** The check of `_validated_event_hash`. */
  predicate HashMatches(c: Codec, r: Record) {
    && r.eventHash.Text?
    && IsDigest(r.eventHash.text)
    && r.eventHash.text == c.digest(r.previousHash, r.body)
  }

  function ValidRecord(c: Codec, line: seq<byte>): (r: Option<Record>)
    ensures r.Some? ==> c.decode(line) == r && HashMatches(c, r.value)
    ensures r.Some? <==>
              && c.decode(line).Some? && c.decode(line).value.eventHash.Text? && IsDigest(c.decode(line).value.eventHash.text)
              && c.decode(line).value.eventHash.text == c.digest(c.decode(line).value.previousHash, c.decode(line).value.body)
  {
    var decoded := c.decode(line);
    if decoded.Some? && HashMatches(c, decoded.value) then decoded else None
  }

  predicate HasNoPredecessor(r: Record) {
    r.previousHash.Absent? || r.previousHash.Null?
  }

  predicate LinksTo(r: Record, predecessor: Record) {
    predecessor.eventHash.Text? && r.previousHash == Text(predecessor.eventHash.text)
  }

  // ----- the forward reading of a trail

  /** Splits on newlines; the last element is what follows the last newline. */
  function Lines(file: seq<byte>): (ls: seq<seq<byte>>)
    ensures |ls| >= 1
  {
    if file == [] then [[]]
    else
      var ls := Lines(file[1..]);
      if file[0] == NEWLINE then [[]] + ls else [[file[0]] + ls[0]] + ls[1..]
  }

  /** The tip of the chain, read off the lines from the front: the last complete line has to be
  a valid record linked to a valid record before it, or have no predecessor when it is first. */
  function TipOfLines(c: Codec, file: seq<byte>): Result<Option<string>, ()> {
    var ls := Lines(file);
    var k := |ls| - 1;
    if file == [] then Ok(None)
    else if ls[k] != [] || k == 0 then Err(())
    else
      var last := ValidRecord(c, ls[k - 1]);
      if last.None? then Err(())
      else if k == 1 then
        if HasNoPredecessor(last.value) then Ok(Some(last.value.eventHash.text)) else Err(())
      else
        var before := ValidRecord(c, ls[k - 2]);
        if before.Some? && LinksTo(last.value, before.value)
        then Ok(Some(last.value.eventHash.text)) else Err(())
  }

  lemma {:induction false} LinesOfOne(b: seq<byte>)
    requires NEWLINE !in b
    ensures Lines(b) == [b]
  {
    if b != [] {
      LinesOfOne(b[1..]);
      assert [b[0]] + b[1..] == b;
    }
  }

  lemma {:induction false} LinesAppend(a: seq<byte>, b: seq<byte>)
    requires NEWLINE !in b
    ensures Lines(a + [NEWLINE] + b) == Lines(a) + [b]
  {
    var f := a + [NEWLINE] + b;
    if a == [] {
      assert f[1..] == b;
      LinesOfOne(b);
    } else {
      assert f[1..] == a[1..] + [NEWLINE] + b;
      LinesAppend(a[1..], b);
    }
  }

  // ----- the backward scan

  function Reversed(s: seq<byte>): (r: seq<byte>) {
    if s == [] then [] else [s[|s| - 1]] + Reversed(s[..|s| - 1])
  }

  /** Where the scan from `end` towards the front stops: at the newline before `end`, or at 0. */
  function Separator(file: seq<byte>, end: nat): (position: nat)
    requires end <= |file|
    ensures position <= end
  {
    if end == 0 then 0 else if file[end - 1] == NEWLINE then end - 1 else Separator(file, end - 1)
  }

  /** The bytes it passes. */
  function LineBefore(file: seq<byte>, end: nat): (line: seq<byte>)
    requires end <= |file|
    ensures NEWLINE !in line
  {
    if end == 0 || file[end - 1] == NEWLINE then [] else LineBefore(file, end - 1) + [file[end - 1]]
  }

  /** The line ends at a newline, unless the scan reached the front of the file without one. */
  predicate Separated(file: seq<byte>, end: nat)
    requires end <= |file|
  {
    end > 0 && file[Separator(file, end)] == NEWLINE
  }

  lemma {:induction false} ScanSplits(file: seq<byte>, end: nat)
    requires end <= |file|
    ensures Separated(file, end) ==> file[..end] == file[..Separator(file, end)] + [NEWLINE] + LineBefore(file, end)
    ensures !Separated(file, end) ==> Separator(file, end) == 0 && LineBefore(file, end) == file[..end]
  {
    if end > 0 {
      assert file[..end] == file[..end - 1] + [file[end - 1]];
      if file[end - 1] != NEWLINE { ScanSplits(file, end - 1); }
    }
  }

  /** The byte loop of `_read_record_before`. */
  method ScanLine(file: seq<byte>, end: nat) returns (line: seq<byte>, position: nat)
    requires end <= |file|
    ensures line == LineBefore(file, end) && position == Separator(file, end)
  {
    position := end;
    var buffer: seq<byte> := [];
    while position > 0
      invariant position <= end
      invariant Separator(file, position) == Separator(file, end)
      invariant LineBefore(file, position) + Reversed(buffer) == LineBefore(file, end)
    {
      position := position - 1;
      var last := file[position];
      if last == NEWLINE { break; }
      buffer := buffer + [last];
      assert buffer[..|buffer| - 1] + [last] == buffer;
      assert LineBefore(file, position + 1) + Reversed(buffer[..|buffer| - 1]) == LineBefore(file, position) + Reversed(buffer);
    }
    line := Reversed(buffer);
  }

  /** The one family of files that the scan misreads: a blank first line, then a single line that
  is valid as the first record of a trail. The separator found at position 0 is taken for the
  start of the file. */
  predicate MisreadsBlankLine(c: Codec, file: seq<byte>) {
    var ls := Lines(file);
    && |ls| == 3 && ls[0] == [] && ls[2] == []
    && var only := ValidRecord(c, ls[1]);
       only.Some? && HasNoPredecessor(only.value)
  }

  lemma LinesOfLastTwo(a: seq<byte>, line: seq<byte>)
    requires NEWLINE !in line
    ensures Lines(a + [NEWLINE] + line + [NEWLINE]) == Lines(a) + [line, []]
  {
    var front := a + [NEWLINE] + line;
    LinesAppend(a, line);
    LinesAppend(front, []);
    assert front + [NEWLINE] + [] == front + [NEWLINE];
    assert (Lines(a) + [line]) + [[]] == Lines(a) + [line, []];
  }

  lemma LinesOfOnlyOne(line: seq<byte>)
    requires NEWLINE !in line
    ensures Lines(line + [NEWLINE]) == [line, []]
  {
    LinesOfOne(line);
    LinesAppend(line, []);
    assert line + [NEWLINE] + [] == line + [NEWLINE];
  }

  function TipIf(links: bool, r: Record): Result<Option<string>, ()>
    requires r.eventHash.Text?
  {
    if links then Ok(Some(r.eventHash.text)) else Err(())
  }

  /** The tip as the backward scan finds it: a separator at position 0 counts as the front of the file. */
  function ScanTip(c: Codec, file: seq<byte>): Result<Option<string>, ()> {
    if file == [] then Ok(None)
    else if file[|file| - 1] != NEWLINE then Err(())
    else
      var separator, final := Separator(file, |file| - 1), ValidRecord(c, LineBefore(file, |file| - 1));
      if final.None? then Err(())
      else if separator == 0 then TipIf(HasNoPredecessor(final.value), final.value)
      else
        var preceding := ValidRecord(c, LineBefore(file, separator));
        TipIf(preceding.Some? && LinksTo(final.value, preceding.value), final.value)
  }

  /** The last complete lines of a file, forwards and backwards. */
  lemma ScanLines(file: seq<byte>)
    requires file != [] && file[|file| - 1] == NEWLINE
    ensures var ls, end := Lines(file), |file| - 1;
            var separator := Separator(file, end);
            && |ls| >= 2 && ls[|ls| - 1] == [] && ls[|ls| - 2] == LineBefore(file, end)
            && (|ls| == 2 ==> separator == 0)
            && (|ls| >= 3 ==> ls[|ls| - 3] == LineBefore(file, separator))
            && (|ls| >= 3 && separator == 0 ==> |ls| == 3 && ls[0] == [])
            && (|ls| == 3 && ls[0] == [] ==> separator == 0)
  {
    var end := |file| - 1;
    var line, separator := LineBefore(file, end), Separator(file, end);
    ScanSplits(file, end);
    assert file == file[..end] + [NEWLINE];
    if Separated(file, end) {
      LinesOfLastTwo(file[..separator], line);
      ScanSplits(file, separator);
      if Separated(file, separator) {
        LinesAppend(file[..Separator(file, separator)], LineBefore(file, separator));
      } else {
        LinesOfOne(file[..separator]);
      }
    } else {
      LinesOfOnlyOne(line);
    }
  }

  /** The scan agrees with the forward reading exactly outside the misread family, in particular on every file
  that does not start with a newline; inside the family it returns the hash of the only record. */
  lemma ScanAgreesExactlyWhen(c: Codec, file: seq<byte>)
    requires Lawful(c)
    ensures ScanTip(c, file) == TipOfLines(c, file) <==> !MisreadsBlankLine(c, file)
    ensures file == [] || file[0] != NEWLINE ==> ScanTip(c, file) == TipOfLines(c, file)
    ensures MisreadsBlankLine(c, file) ==> ScanTip(c, file) == Ok(Some(ValidRecord(c, Lines(file)[1]).value.eventHash.text))
  {
    if file != [] && file[|file| - 1] == NEWLINE {
      ScanLines(file);
      if |Lines(file)| == 3 { BlankHasNoRecord(c, Lines(file)[0]); }
    } else if file != [] {
      LastLineOfPartialFile(file);
    }
    FirstLine(file);
  }

  lemma FirstLine(file: seq<byte>)
    ensures file != [] && file[0] != NEWLINE ==> Lines(file)[0] != []
  {
  }

  lemma BlankHasNoRecord(c: Codec, line: seq<byte>)
    requires Lawful(c)
    ensures line == [] ==> ValidRecord(c, line).None?
  {
  }

  /** `_last_event_hash`: agrees with the forward reading exactly outside the misread family. */
  method LastEventHash(c: Codec, file: seq<byte>) returns (tip: Result<Option<string>, ()>)
    requires Lawful(c)
    ensures tip == ScanTip(c, file)
    ensures tip == TipOfLines(c, file) <==> !MisreadsBlankLine(c, file)
    ensures file == [] || file[0] != NEWLINE ==> tip == TipOfLines(c, file)
  {
    ScanAgreesExactlyWhen(c, file);
    if |file| == 0 { return Ok(None); }
    if file[|file| - 1] != NEWLINE { return Err(()); }
    var line, separator := ScanLine(file, |file| - 1);
    var final := ValidRecord(c, line);
    if final.None? { return Err(()); }
    if separator == 0 {
      if !HasNoPredecessor(final.value) { return Err(()); }
      return Ok(Some(final.value.eventHash.text));
    }
    var line', _ := ScanLine(file, separator);
    var preceding := ValidRecord(c, line');
    if preceding.None? || !LinksTo(final.value, preceding.value) { return Err(()); }
    return Ok(Some(final.value.eventHash.text));
  }

  lemma {:induction false} LastLineOfPartialFile(file: seq<byte>)
    requires file != [] && file[|file| - 1] != NEWLINE
    ensures var ls := Lines(file); ls[|ls| - 1] != []
  {
    var rest := file[1..];
    var ls := Lines(rest);
    if rest == [] {
      assert ls == [[]];
    } else {
      assert rest[|rest| - 1] == file[|file| - 1];
      LastLineOfPartialFile(rest);
    }
    assert Lines(file) == if file[0] == NEWLINE then [[]] + ls else [[file[0]] + ls[0]] + ls[1..];
  }

  /** The family is not empty: any first record behind a blank line belongs to it. */
  lemma BlankLineMisread(c: Codec, r: Record)
    requires Lawful(c) && Built(r) && HashMatches(c, r) && HasNoPredecessor(r)
    ensures MisreadsBlankLine(c, [NEWLINE] + c.encode(r) + [NEWLINE])
  {
    var line := c.encode(r);
    assert [NEWLINE] + line + [NEWLINE] == ([] + [NEWLINE] + line) + [NEWLINE] + [];
    LinesAppend([] + [NEWLINE] + line, []);
    LinesAppend([], line);
  }

  // ----- trails

  ghost predicate LinkedAt(c: Codec, rs: seq<Record>, i: nat)
    requires i < |rs|
  {
    && Built(rs[i]) && HashMatches(c, rs[i])
    && (if i == 0 then HasNoPredecessor(rs[i]) else LinksTo(rs[i], rs[i - 1]))
  }

  /** Valid records, each linked to the one before it; the first has no predecessor. */
  ghost predicate Chain(c: Codec, rs: seq<Record>) {
    forall i | 0 <= i < |rs| :: LinkedAt(c, rs, i)
  }

  ghost function TipHash(c: Codec, rs: seq<Record>): (tip: Option<string>)
    requires Chain(c, rs)
    ensures tip.None? <==> rs == []
    ensures rs != [] ==> rs[|rs| - 1].eventHash == Text(tip.value)
  {
    if rs == [] then None
    else
      assert LinkedAt(c, rs, |rs| - 1);
      Some(rs[|rs| - 1].eventHash.text)
  }

  function Flat(c: Codec, rs: seq<Record>): seq<byte> {
    if rs == [] then [] else Flat(c, rs[..|rs| - 1]) + c.encode(rs[|rs| - 1]) + [NEWLINE]
  }

  /** A chain of records, then possibly the beginning of the record that would extend it. */
  ghost predicate IsTrail(c: Codec, file: seq<byte>, rs: seq<Record>, tail: seq<byte>) {
    && file == Flat(c, rs) + tail
    && Chain(c, rs)
    && NEWLINE !in tail
    && (tail != [] ==> exists r :: Chain(c, rs + [r]) && tail <= c.encode(r))
  }

  ghost predicate WellFormed(c: Codec, file: seq<byte>) {
    exists rs, tail :: IsTrail(c, file, rs, tail)
  }

  predicate Torn(file: seq<byte>) {
    file != [] && file[|file| - 1] != NEWLINE
  }

  lemma {:induction false} LinesOfTrail(c: Codec, rs: seq<Record>, tail: seq<byte>)
    requires Lawful(c) && NEWLINE !in tail
    ensures var ls := Lines(Flat(c, rs) + tail);
            |ls| == |rs| + 1 && ls[|rs|] == tail && forall i | 0 <= i < |rs| :: ls[i] == c.encode(rs[i])
  {
    if rs == [] {
      assert Flat(c, rs) + tail == tail;
      LinesOfOne(tail);
    } else {
      var front, last := rs[..|rs| - 1], c.encode(rs[|rs| - 1]);
      LinesOfTrail(c, front, last);
      assert Flat(c, rs) + tail == (Flat(c, front) + last) + [NEWLINE] + tail;
      LinesAppend(Flat(c, front) + last, tail);
    }
  }

  /** On a trail the scan returns the last hash of the chain, and refuses a torn tail. */
  lemma TipOfTrail(c: Codec, file: seq<byte>, rs: seq<Record>, tail: seq<byte>)
    requires Lawful(c) && IsTrail(c, file, rs, tail)
    ensures Torn(file) <==> tail != []
    ensures ScanTip(c, file) ==
            if tail != [] then Err(()) else Ok(TipHash(c, rs))
  {
    ScanAgreesExactlyWhen(c, file);
    LinesOfTrail(c, rs, tail);
    if rs != [] {
      assert LinkedAt(c, rs, 0) && LinkedAt(c, rs, |rs| - 1);
      assert ValidRecord(c, c.encode(rs[0])) == Some(rs[0]);
      assert ValidRecord(c, c.encode(rs[|rs| - 1])) == Some(rs[|rs| - 1]);
      assert ValidRecord(c, []).None?;
      if |rs| > 1 {
        assert LinkedAt(c, rs, |rs| - 2);
        assert ValidRecord(c, c.encode(rs[|rs| - 2])) == Some(rs[|rs| - 2]);
      }
      assert file[|Flat(c, rs)| - 1] == NEWLINE;
    }
  }

  // ----- building and appending

  /** `build_audit_record`; `body` is the canonical text of the fields other than the two hashes. */
  function BuildRecord(c: Codec, previous: Option<string>, body: string): (r: Record)
    requires Lawful(c)
    ensures Built(r) && HashMatches(c, r)
    ensures r.body == body && r.eventHash == Text(c.digest(r.previousHash, body))
    ensures r.previousHash == if previous.None? then Null else Text(previous.value)
  {
    var link := if previous.None? then Null else Text(previous.value);
    Record(Text(c.digest(link, body)), link, body)
  }

  /** The answers of the operating system during one write. `lockOk` covers the directory, the lock file and reading the trail;
  `writes` are the counts returned by successive `write` calls; a count of at most zero, and running out of
  counts, is a failure. */
  datatype Faults = Faults(
    lockOk: bool, unlockOk: bool, writes: seq<int>, openOk: bool, syncOk: bool, closeOk: bool, directorySyncOk: bool,
    closeAgainOk: bool, reopenOk: bool, truncateOk: bool, unlinkOk: bool)

  /** How many of `n` bytes the `write` calls put down. */
  function Put(writes: seq<int>, n: nat): (k: nat)
    ensures k <= n
  {
    if n == 0 || writes == [] || writes[0] <= 0 then 0
    else if writes[0] >= n then n
    else writes[0] + Put(writes[1..], n - writes[0])
  }

  /** All bytes are written, synced and the descriptor is closed. */
  predicate Closed(f: Faults, n: nat) {
    f.openOk && Put(f.writes, n) == n && f.syncOk && f.closeOk
  }

  /** The append of `n` bytes goes through. */
  predicate Appends(f: Faults, existed: bool, n: nat) {
    Closed(f, n) && (existed || f.directorySyncOk)
  }

  /** The rollback of a failed append reaches its truncation or removal, and that works. */
  predicate Undoes(f: Faults, existed: bool, n: nat) {
    (Closed(f, n) || f.closeAgainOk) && if existed then f.reopenOk && f.truncateOk else f.unlinkOk
  }

  /** The file after an append: the line on success, the old file after a rollback that works, and else
  whatever was written. */
  function ContentAfter(f: Faults, existed: bool, before: seq<byte>, line: seq<byte>): seq<byte> {
    if !f.openOk then before
    else if Appends(f, existed, |line|) then before + line
    else if Undoes(f, existed, |line|) then before
    else before + line[..Put(f.writes, |line|)]
  }

  /** All that an append may do to the file: add a prefix of the line, the whole line on success. */
  ghost predicate AppendOutcome(line: seq<byte>, before: seq<byte>, after: seq<byte>, ok: bool) {
    && (ok ==> after == before + line)
    && exists n | 0 <= n <= |line| :: after == before + line[..n]
  }

  lemma ContentIsOutcome(f: Faults, existed: bool, before: seq<byte>, line: seq<byte>, ok: bool)
    requires ok ==> Appends(f, existed, |line|)
    ensures AppendOutcome(line, before, ContentAfter(f, existed, before, line), ok)
  {
    assert before == before + line[..0] && line[..|line|] == line;
  }

  /** One call of `write_audit_record` on a configured path. */
  ghost predicate WriteOutcome(
    c: Codec, body: string, before: seq<byte>, after: seq<byte>, durable: bool)
    requires Lawful(c)
  {
    match ScanTip(c, before)
    case Err(_) => after == before && !durable
    case Ok(tip) => AppendOutcome(c.encode(BuildRecord(c, tip, body)) + [NEWLINE], before, after, durable)
  }

  lemma NothingWritten(c: Codec, body: string, file: seq<byte>)
    requires Lawful(c)
    ensures WriteOutcome(c, body, file, file, false)
  {
    if ScanTip(c, file).Ok? {
      var line := c.encode(BuildRecord(c, ScanTip(c, file).value, body)) + [NEWLINE];
      assert file == file + line[..0];
    }
  }

  /** The file ends with a complete line, or is empty. */
  predicate Complete(file: seq<byte>) {
    file == [] || file[|file| - 1] == NEWLINE
  }

  /** Appending a line to a complete file leaves its lines and adds one. */
  lemma AppendedLine(file: seq<byte>, line: seq<byte>)
    requires Complete(file) && NEWLINE !in line
    ensures var ls := Lines(file);
            Lines(file + (line + [NEWLINE])) == ls[..|ls| - 1] + [line, []]
  {
    if file == [] {
      LinesOfOnlyOne(line);
      assert file + (line + [NEWLINE]) == line + [NEWLINE];
      assert Lines(file)[..0] + [line, []] == [line, []];
    } else {
      AppendedBehind(file[..|file| - 1], file, line);
    }
  }

  lemma AppendedBehind(a: seq<byte>, file: seq<byte>, line: seq<byte>)
    requires file == a + [NEWLINE] && NEWLINE !in line
    ensures Lines(file) == Lines(a) + [[]] && Lines(file + (line + [NEWLINE])) == Lines(a) + [line, []]
  {
    assert file == a + [NEWLINE] + [];
    LinesAppend(a, []);
    LinesOfLastTwo(a, line);
    assert file + (line + [NEWLINE]) == a + [NEWLINE] + line + [NEWLINE];
  }

  /** What a durable write leaves: the lines of before, and a last complete line that decodes to a record with the
  caller's body, linked to the previous tip and carrying its own hash. */
  ghost predicate Recorded(c: Codec, tip: Option<string>, body: string, before: seq<byte>, after: seq<byte>) {
    var ls, ls' := Lines(before), Lines(after);
    && |ls'| == |ls| + 1 && ls'[..|ls| - 1] == ls[..|ls| - 1] && ls'[|ls|] == []
    && c.decode(ls'[|ls| - 1]).Some?
    && var r := c.decode(ls'[|ls| - 1]).value;
       && r.body == body && r.previousHash == (if tip.None? then Null else Text(tip.value))
       && r.eventHash == Text(c.digest(r.previousHash, body))
  }

  lemma WrittenIsRecorded(c: Codec, tip: Option<string>, body: string, before: seq<byte>)
    requires Lawful(c) && ScanTip(c, before) == Ok(tip)
    ensures Recorded(c, tip, body, before, before + (c.encode(BuildRecord(c, tip, body)) + [NEWLINE]))
  {
    AppendedLine(before, c.encode(BuildRecord(c, tip, body)));
  }

  /** The new line is in the file although the call reports the record as not durable. */
  ghost predicate InFileNotDurable(before: seq<byte>, line: seq<byte>, after: seq<byte>, durable: bool) {
    after == before + line && !durable
  }

  /** The faults that lead there: an append that went through followed by a failed unlock, or a line that was
  written whole, a later step that failed, and a rollback that did not work. */
  predicate Misreports(f: Faults, existed: bool, n: nat) {
    && f.lockOk && f.openOk && Put(f.writes, n) == n
    && if Appends(f, existed, n) then !f.unlockOk else !Undoes(f, existed, n)
  }

  lemma MisreportsExactlyWhen(f: Faults, existed: bool, before: seq<byte>, line: seq<byte>)
    requires line != []
    ensures var after := if f.lockOk then ContentAfter(f, existed, before, line) else before;
            var durable := f.lockOk && Appends(f, existed, |line|) && f.unlockOk;
            InFileNotDurable(before, line, after, durable) <==> Misreports(f, existed, |line|)
  {
    var k := Put(f.writes, |line|);
    assert before != before + line;
    if k < |line| { assert |before + line[..k]| < |before + line|; } else { assert line[..k] == line; }
  }

  /** Both families occur, on new and on existing files, for every line. */
  lemma MisreportingFaults(existed: bool, n: nat)
    requires n > 0
    ensures var fine := Faults(true, true, [n], true, true, true, true, true, true, true, true);
            && Misreports(fine.(unlockOk := false), existed, n)
            && Misreports(fine.(syncOk := false, reopenOk := false, unlinkOk := false), existed, n)
            && !Misreports(fine, existed, n)
            && !Misreports(fine.(syncOk := false), existed, n)
  {
  }

  lemma PutStep(writes: seq<int>, n: nat, written: nat, call: nat)
    requires written < n && call < |writes| && writes[call] > 0
    ensures var count := if writes[call] < n - written then writes[call] else n - written;
            written + Put(writes[call..], n - written) == written + count + Put(writes[call + 1..], n - written - count)
  {
    assert writes[call..][1..] == writes[call + 1..];
  }

  class TrailFile {
    var present: bool
    var content: seq<byte>

    ghost predicate Valid()
      reads this
    {
      !present ==> content == []
    }

    /** The loop over `os.write`. */
    method PutBytes(line: seq<byte>, writes: seq<int>) returns (failed: bool)
      modifies `content
      ensures content == old(content) + line[..Put(writes, |line|)]
      ensures failed <==> Put(writes, |line|) < |line|
    {
      failed := false;
      var written, call := 0, 0;
      assert writes[0..] == writes;
      while written < |line| && !failed
        invariant written <= |line| && call <= |writes|
        invariant content == old(content) + line[..written]
        invariant Put(writes, |line|) == written + if failed then 0 else Put(writes[call..], |line| - written)
        invariant failed ==> written < |line|
        decreases |line| - written, !failed
      {
        if call == |writes| || writes[call] <= 0 {
          failed := true;
        } else {
          PutStep(writes, |line|, written, call);
          var count := if writes[call] < |line| - written then writes[call] else |line| - written;
          call := call + 1;
          content := content + line[written..written + count];
          assert line[..written] + line[written..written + count] == line[..written + count];
          written := written + count;
        }
      }
    }

    /** `_append_durable_line`, with its rollback, which may fail too. */
    method AppendDurableLine(line: seq<byte>, f: Faults) returns (ok: bool)
      requires Valid()
      modifies this
      ensures Valid()
      ensures ok <==> Appends(f, old(present), |line|)
      ensures content == ContentAfter(f, old(present), old(content), line)
      ensures present == (if f.openOk then old(present) || ok || !Undoes(f, false, |line|) else old(present))
    {
      var existed, originalSize := present, |content|;
      if !f.openOk { return false; }
      present := true;
      var failed := PutBytes(line, f.writes);
      var closed := !failed && f.syncOk && f.closeOk;
      if closed && (existed || f.directorySyncOk) { return true; }
      if closed || f.closeAgainOk {
        if existed {
          if f.reopenOk && f.truncateOk {
            content := content[..originalSize];
          }
        } else if f.unlinkOk {
          present, content := false, [];
        }
      }
      return false;
    }

    /** `write_audit_record`; the record returned says whether it is durable. */
    method WriteAuditRecord(c: Codec, body: string, failureBody: string, f: Faults) returns (record: Record, durable: bool)
      requires Lawful(c) && Valid()
      modifies this
      ensures Valid()
      ensures WriteOutcome(c, body, old(content), content, durable)
      ensures durable ==> content == old(content) + c.encode(record) + [NEWLINE]
      ensures durable ==> ScanTip(c, old(content)).Ok? && Recorded(c, ScanTip(c, old(content)).value, body, old(content), content)
      ensures !durable ==> record == BuildRecord(c, None, failureBody)
      ensures ScanTip(c, old(content)).Ok? ==>
                var line := c.encode(BuildRecord(c, ScanTip(c, old(content)).value, body)) + [NEWLINE];
                && content == (if f.lockOk then ContentAfter(f, old(present), old(content), line) else old(content))
                && (durable <==> f.lockOk && f.unlockOk && Appends(f, old(present), |line|))
                && (InFileNotDurable(old(content), line, content, durable) <==> Misreports(f, old(present), |line|))
    {
      ghost var before, existed := content, present;
      record := BuildRecord(c, None, failureBody);
      NothingWritten(c, body, content);
      if !f.lockOk {
        if ScanTip(c, before).Ok? {
          MisreportsExactlyWhen(f, existed, before, c.encode(BuildRecord(c, ScanTip(c, before).value, body)) + [NEWLINE]);
        }
        return record, false;
      }
      var tip := LastEventHash(c, content);
      if tip.Err? { return record, false; }
      var linked := BuildRecord(c, tip.value, body);
      var line := c.encode(linked) + [NEWLINE];
      MisreportsExactlyWhen(f, existed, before, line);
      var appended := AppendDurableLine(line, f);
      durable := appended && f.unlockOk;
      ContentIsOutcome(f, existed, before, line, durable);
      if durable {
        record := linked;
        assert content == before + c.encode(record) + [NEWLINE];
        WrittenIsRecorded(c, tip.value, body, before);
      }
    }
  }

  // ----- every run

  lemma ExtendChain(c: Codec, rs: seq<Record>, body: string, r: Record)
    requires Lawful(c) && Chain(c, rs)
    requires r == BuildRecord(c, TipHash(c, rs), body)
    ensures Chain(c, rs + [r])
    ensures Flat(c, rs + [r]) == Flat(c, rs) + (c.encode(r) + [NEWLINE])
  {
    var rs' := rs + [r];
    assert rs'[..|rs'| - 1] == rs;
    forall i | 0 <= i < |rs'| ensures LinkedAt(c, rs', i) {
      if 0 < i { assert LinkedAt(c, rs, i - 1); }
      if i < |rs| { assert LinkedAt(c, rs, i); }
    }
    assert Flat(c, rs') == Flat(c, rs) + c.encode(r) + [NEWLINE];
  }

  /** Any prefix of the next record's line leaves a well-formed trail. */
  lemma PartlyAppended(c: Codec, rs: seq<Record>, body: string, n: nat)
    requires Lawful(c) && Chain(c, rs)
    requires n <= |c.encode(BuildRecord(c, TipHash(c, rs), body))| + 1
    ensures var line := c.encode(BuildRecord(c, TipHash(c, rs), body)) + [NEWLINE];
            WellFormed(c, Flat(c, rs) + line[..n])
  {
    var r := BuildRecord(c, TipHash(c, rs), body);
    var line := c.encode(r) + [NEWLINE];
    ExtendChain(c, rs, body, r);
    if n == |line| {
      assert line[..n] == line;
      assert Flat(c, rs + [r]) == Flat(c, rs + [r]) + [];
      assert IsTrail(c, Flat(c, rs) + line, rs + [r], []);
    } else {
      assert line[..n] == c.encode(r)[..n];
      assert IsTrail(c, Flat(c, rs) + line[..n], rs, line[..n]);
    }
  }

  /** Every write keeps the trail well formed, only ever appends, and leaves a torn trail alone. */
  lemma WriteKeepsTrail(c: Codec, body: string, before: seq<byte>, after: seq<byte>, durable: bool)
    requires Lawful(c) && WellFormed(c, before)
    requires WriteOutcome(c, body, before, after, durable)
    ensures WellFormed(c, after) && before <= after
    ensures Torn(before) ==> after == before && !durable
  {
    var rs, tail :| IsTrail(c, before, rs, tail);
    TipOfTrail(c, before, rs, tail);
    if tail == [] {
      var line := c.encode(BuildRecord(c, TipHash(c, rs), body)) + [NEWLINE];
      var n :| 0 <= n <= |line| && after == before + line[..n];
      assert before == Flat(c, rs);
      PartlyAppended(c, rs, body, n);
    }
  }

  ghost predicate WriteStep(c: Codec, before: seq<byte>, after: seq<byte>)
    requires Lawful(c)
  {
    exists body, durable :: WriteOutcome(c, body, before, after, durable)
  }

  ghost predicate Run(c: Codec, files: seq<seq<byte>>)
    requires Lawful(c)
  {
    && |files| > 0
    && (exists rs :: Chain(c, rs) && files[0] == Flat(c, rs))
    && forall i | 0 < i < |files| :: WriteStep(c, files[i - 1], files[i])
  }

  /** The run invariant: under every pattern of short writes, failures and failed rollbacks the
  file stays a linked chain followed by at most one torn record, it only grows, and nothing is
  appended once it is torn. */
  lemma {:induction false} RunKeepsTrail(c: Codec, files: seq<seq<byte>>, i: nat, j: nat)
    requires Lawful(c) && Run(c, files) && i <= j < |files|
    ensures WellFormed(c, files[i]) && WellFormed(c, files[j])
    ensures files[i] <= files[j]
    ensures Torn(files[i]) ==> files[j] == files[i]
    decreases j
  {
    if j == 0 {
      var rs :| Chain(c, rs) && files[0] == Flat(c, rs);
      assert IsTrail(c, files[0], rs, []);
    } else {
      RunKeepsTrail(c, files, if i < j then i else j - 1, j - 1);
      assert WriteStep(c, files[j - 1], files[j]);
      var body, durable :| WriteOutcome(c, body, files[j - 1], files[j], durable);
      WriteKeepsTrail(c, body, files[j - 1], files[j], durable);
    }
  }

  /** What is complete stays: the lines of a file, but for the last, are the first lines of every extension. */
  lemma {:induction false} LinesOfExtension(a: seq<byte>, b: seq<byte>)
    ensures var ls, ls' := Lines(a), Lines(a + b);
            |ls| <= |ls'| && ls'[..|ls| - 1] == ls[..|ls| - 1]
  {
    if a != [] {
      assert (a + b)[1..] == a[1..] + b;
      LinesOfExtension(a[1..], b);
    }
  }

  /** Records never change: whatever chain a later trail consists of, it begins with the chain of the earlier one. */
  lemma RecordsStay(c: Codec, before: seq<byte>, rs: seq<Record>, tail: seq<byte>, after: seq<byte>, rs': seq<Record>, tail': seq<byte>)
    requires Lawful(c) && before <= after && IsTrail(c, before, rs, tail) && IsTrail(c, after, rs', tail')
    ensures rs <= rs'
  {
    assert after == before + after[|before|..];
    LinesOfExtension(before, after[|before|..]);
    LinesOfTrail(c, rs, tail);
    LinesOfTrail(c, rs', tail');
    var ls, ls' := Lines(before), Lines(after);
    forall i | 0 <= i < |rs| ensures rs[i] == rs'[i] {
      assert ls'[..|ls| - 1][i] == ls[..|ls| - 1][i];
      assert LinkedAt(c, rs, i) && LinkedAt(c, rs', i);
      assert c.decode(c.encode(rs[i])) == Some(rs[i]);
      assert c.decode(c.encode(rs'[i])) == Some(rs'[i]);
    }
  }

  /** So in every run every record, with its body, stays where it is. */
  lemma RunKeepsRecords(c: Codec, files: seq<seq<byte>>, i: nat, j: nat, rs: seq<Record>, tail: seq<byte>, rs': seq<Record>, tail': seq<byte>)
    requires Lawful(c) && Run(c, files) && i <= j < |files|
    requires IsTrail(c, files[i], rs, tail) && IsTrail(c, files[j], rs', tail')
    ensures rs <= rs'
  {
    RunKeepsTrail(c, files, i, j);
    RecordsStay(c, files[i], rs, tail, files[j], rs', tail');
  }

  /** Two different hash inputs with one digest. */
  ghost predicate Collide(c: Codec, a: Record, b: Record) {
    && (a.previousHash != b.previousHash || a.body != b.body)
    && c.digest(a.previousHash, a.body) == c.digest(b.previousHash, b.body)
  }

  ghost predicate HashCollision(c: Codec, rs: seq<Record>, ss: seq<Record>) {
    exists i, j | 0 <= i < |rs| && 0 <= j < |ss| :: Collide(c, rs[i], ss[j])
  }

  lemma {:induction false} ChainsAgree(c: Codec, rs: seq<Record>, ss: seq<Record>, m: nat, n: nat)
    requires Chain(c, rs) && Chain(c, ss) && m < |rs| && n < |ss| && rs[m].eventHash == ss[n].eventHash
    ensures HashCollision(c, rs, ss) || (m == n && rs[..m + 1] == ss[..n + 1])
  {
    assert LinkedAt(c, rs, m) && LinkedAt(c, ss, n);
    if !Collide(c, rs[m], ss[n]) && m > 0 && n > 0 {
      assert LinkedAt(c, rs, m - 1) && LinkedAt(c, ss, n - 1);
      ChainsAgree(c, rs, ss, m - 1, n - 1);
      assert rs[..m + 1] == rs[..m] + [rs[m]] && ss[..n + 1] == ss[..n] + [ss[n]];
    }
  }

  /** Tamper evidence: two chains with one tip are equal, or contain a collision of the hash. */
  lemma TipDeterminesChain(c: Codec, rs: seq<Record>, ss: seq<Record>)
    requires Chain(c, rs) && Chain(c, ss) && rs != [] && ss != []
    requires rs[|rs| - 1].eventHash == ss[|ss| - 1].eventHash
    ensures rs == ss || HashCollision(c, rs, ss)
  {
    ChainsAgree(c, rs, ss, |rs| - 1, |ss| - 1);
    assert rs == rs[..|rs|] && ss == ss[..|ss|];
  }
}
