/** The check of the registry's push response: newline-separated records, of
    which any that decodes to a payload with an "error" field aborts the copy.
    JSON decoding is an oracle `parse` (None for a line that does not decode)
    and the "error" field test is the predicate `hasError`. */
module PushLogs {
  import opened Wrappers
  import opened Text

  const Newline: char := '\n'

  /** Why a push was reported as failed: the registry answered with an error
      record, or (legacy scanner only) a record did not decode. */
  datatype PushError<P> = RegistryError(payload: P) | DecodeError(line: string)

  /** A record the current scanner stops at: non-empty, decodable, and its
      payload carries an error. */
  predicate ReportsError<P>(line: string, parse: string -> Option<P>, hasError: P -> bool) {
    line != "" && parse(line).Some? && hasError(parse(line).value)
  }

  /** Record `i` is the first record that reports an error. */
  predicate FirstErrorAt<P>(lines: seq<string>, i: int, parse: string -> Option<P>, hasError: P -> bool) {
    && 0 <= i < |lines|
    && ReportsError(lines[i], parse, hasError)
    && forall j :: 0 <= j < i ==> !ReportsError(lines[j], parse, hasError)
  }

  /** Current scan over the records: empty and undecodable records are
      skipped; the first error payload is raised. */
  function ScanLines<P>(lines: seq<string>, parse: string -> Option<P>, hasError: P -> bool)
    : (r: Outcome<PushError<P>>)
    ensures r.Fail? ==> r.error.RegistryError?
    decreases |lines|
  {
    if |lines| == 0 then Pass
    else if lines[0] == "" then ScanLines(lines[1..], parse, hasError)
    else
      match parse(lines[0])
      case None => ScanLines(lines[1..], parse, hasError)
      case Some(payload) =>
        if hasError(payload) then Fail(RegistryError(payload))
        else ScanLines(lines[1..], parse, hasError)
  }

  /** The current scan fails exactly when some record reports an error, and
      then it reports the payload of the first such record. */
  lemma {:induction false} ScanLinesFirstError<P>(lines: seq<string>, parse: string -> Option<P>, hasError: P -> bool)
    ensures ScanLines(lines, parse, hasError).Fail? <==>
      exists i :: 0 <= i < |lines| && ReportsError(lines[i], parse, hasError)
    ensures forall i :: FirstErrorAt(lines, i, parse, hasError) ==>
      ScanLines(lines, parse, hasError) == Fail(RegistryError(parse(lines[i]).value))
    decreases |lines|
  {
    if |lines| > 0 {
      ScanLinesFirstError(lines[1..], parse, hasError);
      var r := ScanLines(lines, parse, hasError);
      if ReportsError(lines[0], parse, hasError) {
        assert r == Fail(RegistryError(parse(lines[0]).value));
      } else {
        assert r == ScanLines(lines[1..], parse, hasError);
        forall i | 0 <= i < |lines| && ReportsError(lines[i], parse, hasError)
          ensures 0 < i && ReportsError(lines[1..][i - 1], parse, hasError)
        {
        }
        if r.Fail? {
          var i :| 0 <= i < |lines[1..]| && ReportsError(lines[1..][i], parse, hasError);
          assert ReportsError(lines[i + 1], parse, hasError);
        }
      }
    }
  }

  /** `process_docker_push_logs` (current): split the response into records
      and scan them. */
  function ProcessPushLogs<P>(logs: string, parse: string -> Option<P>, hasError: P -> bool)
    : Outcome<PushError<P>>
  {
    ScanLines(Split(logs, Newline), parse, hasError)
  }

  /** The current check raises exactly when some record of the response
      decodes to an error payload, and it raises with the payload of the
      first such record. Empty and undecodable records never cause a
      failure. */
  lemma ProcessPushLogsFirstError<P>(logs: string, parse: string -> Option<P>, hasError: P -> bool)
    ensures ProcessPushLogs(logs, parse, hasError).Fail? ==>
      exists i :: 0 <= i < |Split(logs, Newline)| && ReportsError(Split(logs, Newline)[i], parse, hasError)
    ensures (exists i :: 0 <= i < |Split(logs, Newline)| && ReportsError(Split(logs, Newline)[i], parse, hasError)) ==>
      ProcessPushLogs(logs, parse, hasError).Fail?
    ensures forall i :: FirstErrorAt(Split(logs, Newline), i, parse, hasError) ==>
      ProcessPushLogs(logs, parse, hasError) == Fail(RegistryError(parse(Split(logs, Newline)[i]).value))
  {
    var lines := Split(logs, Newline);
    var r := ProcessPushLogs(logs, parse, hasError);
    ScanLinesFirstError(lines, parse, hasError);
    assert r == ScanLines(lines, parse, hasError);
    if r.Fail? {
      var i :| 0 <= i < |lines| && ReportsError(lines[i], parse, hasError);
    }
    if i :| 0 <= i < |lines| && ReportsError(lines[i], parse, hasError) {
      assert r.Fail?;
      assert ProcessPushLogs(logs, parse, hasError).Fail?;
      assert exists i :: 0 <= i < |Split(logs, Newline)| && ReportsError(Split(logs, Newline)[i], parse, hasError);
    }
  }

  /** A record the legacy scanner stops at: it does not decode, or its
      payload carries an error. */
  predicate Halts<P>(line: string, parse: string -> Option<P>, hasError: P -> bool) {
    parse(line).None? || hasError(parse(line).value)
  }

  /** Record `i` is the first record the legacy scanner stops at. */
  predicate FirstHaltAt<P>(lines: seq<string>, i: int, parse: string -> Option<P>, hasError: P -> bool) {
    && 0 <= i < |lines|
    && Halts(lines[i], parse, hasError)
    && forall j :: 0 <= j < i ==> !Halts(lines[j], parse, hasError)
  }

  /** The error the legacy scanner raises at a record it stops at. */
  function HaltError<P>(line: string, parse: string -> Option<P>): PushError<P> {
    match parse(line)
    case None => DecodeError(line)
    case Some(payload) => RegistryError(payload)
  }

  /** Legacy scan: every record, empty ones included, is decoded; a decode
      failure aborts, and so does an error payload. */
  function ScanLinesLegacy<P>(lines: seq<string>, parse: string -> Option<P>, hasError: P -> bool)
    : Outcome<PushError<P>>
    decreases |lines|
  {
    if |lines| == 0 then Pass
    else
      match parse(lines[0])
      case None => Fail(DecodeError(lines[0]))
      case Some(payload) =>
        if hasError(payload) then Fail(RegistryError(payload))
        else ScanLinesLegacy(lines[1..], parse, hasError)
  }

  /** The legacy scan passes exactly when every record decodes to a payload
      without error; otherwise it raises at the first record that does not,
      with a decode error if that record does not decode. */
  lemma {:induction false} ScanLinesLegacyFirstHalt<P>(lines: seq<string>, parse: string -> Option<P>, hasError: P -> bool)
    ensures ScanLinesLegacy(lines, parse, hasError).Pass? <==>
      forall i :: 0 <= i < |lines| ==> !Halts(lines[i], parse, hasError)
    ensures forall i :: FirstHaltAt(lines, i, parse, hasError) ==>
      ScanLinesLegacy(lines, parse, hasError) == Fail(HaltError(lines[i], parse))
    decreases |lines|
  {
    if |lines| > 0 {
      ScanLinesLegacyFirstHalt(lines[1..], parse, hasError);
      if !Halts(lines[0], parse, hasError) {
        forall i | 0 <= i < |lines| && Halts(lines[i], parse, hasError)
          ensures 0 < i && Halts(lines[1..][i - 1], parse, hasError)
        {
        }
        if ScanLinesLegacy(lines, parse, hasError).Fail? {
          var i :| 0 <= i < |lines[1..]| && Halts(lines[1..][i], parse, hasError);
          assert Halts(lines[i + 1], parse, hasError);
        }
      }
    }
  }

  /** `process_docker_push_logs` (legacy): split the response into records
      and scan them strictly. */
  function ProcessPushLogsLegacy<P>(logs: string, parse: string -> Option<P>, hasError: P -> bool)
    : Outcome<PushError<P>>
  {
    ScanLinesLegacy(Split(logs, Newline), parse, hasError)
  }

  /** The legacy check passes exactly when every record, empty ones
      included, decodes to a payload without error; otherwise the first
      record that breaks either rule decides the failure, before any later
      record is looked at. */
  lemma ProcessPushLogsLegacyFirstHalt<P>(logs: string, parse: string -> Option<P>, hasError: P -> bool)
    ensures ProcessPushLogsLegacy(logs, parse, hasError).Pass? ==>
      forall i :: 0 <= i < |Split(logs, Newline)| ==> !Halts(Split(logs, Newline)[i], parse, hasError)
    ensures (forall i :: 0 <= i < |Split(logs, Newline)| ==> !Halts(Split(logs, Newline)[i], parse, hasError)) ==>
      ProcessPushLogsLegacy(logs, parse, hasError).Pass?
    ensures forall i :: FirstHaltAt(Split(logs, Newline), i, parse, hasError) ==>
      ProcessPushLogsLegacy(logs, parse, hasError) == Fail(HaltError(Split(logs, Newline)[i], parse))
  {
    var lines := Split(logs, Newline);
    var r := ProcessPushLogsLegacy(logs, parse, hasError);
    ScanLinesLegacyFirstHalt(lines, parse, hasError);
    assert r == ScanLinesLegacy(lines, parse, hasError);
    if r.Pass? {
      assert forall i :: 0 <= i < |lines| ==> !Halts(lines[i], parse, hasError);
    }
    if forall i :: 0 <= i < |lines| ==> !Halts(lines[i], parse, hasError) {
      assert r.Pass?;
    }
  }

  /** Record by record: a legacy pass is a current pass. */
  lemma {:induction false} ScanLinesLegacyPassImpliesPass<P>(lines: seq<string>, parse: string -> Option<P>, hasError: P -> bool)
    requires ScanLinesLegacy(lines, parse, hasError).Pass?
    ensures ScanLines(lines, parse, hasError).Pass?
    decreases |lines|
  {
    if |lines| > 0 {
      ScanLinesLegacyPassImpliesPass(lines[1..], parse, hasError);
    }
  }

  /** Whatever the legacy check lets through, the current check lets
      through as well. */
  lemma LegacyPassImpliesCurrentPass<P>(logs: string, parse: string -> Option<P>, hasError: P -> bool)
    requires ProcessPushLogsLegacy(logs, parse, hasError).Pass?
    ensures ProcessPushLogs(logs, parse, hasError).Pass?
  {
    ScanLinesLegacyPassImpliesPass(Split(logs, Newline), parse, hasError);
  }

  /** A response of three records: a status record, a record that does not
      decode, and an error record. The current check reports the third
      record's payload regardless of the malformed second one; the legacy
      check already fails on the second. */
  lemma MalformedRecordBetween<P>(ok: string, junk: string, bad: string,
                                  parse: string -> Option<P>, hasError: P -> bool)
    requires Newline !in ok && Newline !in junk && Newline !in bad
    requires ok != "" && parse(ok).Some? && !hasError(parse(ok).value)
    requires parse(junk).None?
    requires bad != "" && parse(bad).Some? && hasError(parse(bad).value)
    ensures ProcessPushLogs(ok + [Newline] + junk + [Newline] + bad, parse, hasError)
      == Fail(RegistryError(parse(bad).value))
    ensures ProcessPushLogsLegacy(ok + [Newline] + junk + [Newline] + bad, parse, hasError)
      == Fail(DecodeError(junk))
  {
    var rest := junk + [Newline] + bad;
    assert ok + [Newline] + junk + [Newline] + bad == ok + [Newline] + rest;
    SplitAround(ok, rest, Newline);
    SplitAround(junk, bad, Newline);
    SplitFree(ok, Newline);
    SplitFree(junk, Newline);
    SplitFree(bad, Newline);
    var lines := [ok, junk, bad];
    assert Split(ok + [Newline] + rest, Newline) == lines;
    assert lines[1..] == [junk, bad] && lines[1..][1..] == [bad];
    assert ScanLines(lines, parse, hasError) == ScanLines([junk, bad], parse, hasError);
    assert ScanLines([junk, bad], parse, hasError) == ScanLines([bad], parse, hasError);
    assert ScanLines([bad], parse, hasError) == Fail(RegistryError(parse(bad).value));
    assert ScanLinesLegacy(lines, parse, hasError) == ScanLinesLegacy([junk, bad], parse, hasError);
  }

  /** A response ending in a newline has an empty last record. The legacy
      scanner therefore always fails on it (an empty string does not decode),
      while the current scanner gives the same verdict as without the
      newline. */
  lemma TrailingNewline<P>(logs: string, parse: string -> Option<P>, hasError: P -> bool)
    requires parse("").None?
    ensures ProcessPushLogsLegacy(logs + [Newline], parse, hasError).Fail?
    ensures ProcessPushLogs(logs + [Newline], parse, hasError) == ProcessPushLogs(logs, parse, hasError)
  {
    var lines := Split(logs, Newline);
    TrailingSeparator(logs, Newline);
    var extended := lines + [""];
    assert Halts(extended[|lines|], parse, hasError);
    ScanLinesLegacyFirstHalt(extended, parse, hasError);
    ScanLinesAppendEmpty(lines, parse, hasError);
  }

  /** An empty record at the end does not change the current scan. */
  lemma {:induction false} ScanLinesAppendEmpty<P>(lines: seq<string>, parse: string -> Option<P>, hasError: P -> bool)
    ensures ScanLines(lines + [""], parse, hasError) == ScanLines(lines, parse, hasError)
    decreases |lines|
  {
    if |lines| == 0 {
      var single: seq<string> := [""];
      assert single[1..] == [];
    } else {
      assert (lines + [""])[1..] == lines[1..] + [""];
      ScanLinesAppendEmpty(lines[1..], parse, hasError);
    }
  }
}
