/**
 * The merge fold of `parse_logs`: tokenized lines are folded through one
 * pending event, adjacent lines with equal `msg` are merged into it (earlier
 * values winning), a change of `msg` emits it unless its `msg` reads "none",
 * and the pending event is flushed after the last line only when that line's
 * text does not occur earlier in the input.
 */
module EventMerger {
  import opened Wrappers
  import opened Tokenizer

  /** The initial pending event of the fold. */
  const Sentinel: FieldMap := map["msg" := "none"]

  /** The fatal error of a line whose fields hold no `msg` (Python's KeyError), with the line's position. */
  datatype ParseError = MissingMsg(line: nat)

  function Last<T>(s: seq<T>): T
    requires |s| > 0
  {
    s[|s| - 1]
  }

  function DropLast<T>(s: seq<T>): seq<T>
    requires |s| > 0
  {
    s[..|s| - 1]
  }

  predicate AllHaveMsg(ms: seq<FieldMap>)
  {
    forall i :: 0 <= i < |ms| ==> "msg" in ms[i]
  }

  /**
   * The `msg` field of a line. The fold only ever reads it from lines that
   * hold one: a line without it raises before it is compared.
   */
  function Msg(m: FieldMap): string
  {
    if "msg" in m then m["msg"] else ""
  }

  // ---------------------------------------------------------------------
  // Runs of adjacent lines with equal `msg`
  // ---------------------------------------------------------------------

  /** Runs are never empty. */
  predicate WellFormedRuns(rs: seq<seq<FieldMap>>)
  {
    forall j :: 0 <= j < |rs| ==> rs[j] != []
  }

  /** The runs after one more line: it joins the last run when it has that run's `msg`, or opens a run of its own. */
  function Extend(rs: seq<seq<FieldMap>>, m: FieldMap): (r: seq<seq<FieldMap>>)
    requires WellFormedRuns(rs)
    ensures WellFormedRuns(r) && r != []
  {
    if rs != [] && Msg(Last(Last(rs))) == Msg(m) then DropLast(rs) + [Last(rs) + [m]]
    else rs + [[m]]
  }

  /** The maximal runs of adjacent lines with equal `msg`, in input order. */
  function Runs(ms: seq<FieldMap>): (rs: seq<seq<FieldMap>>)
    ensures WellFormedRuns(rs) && (rs == []) == (ms == [])
  {
    if ms == [] then [] else Extend(Runs(DropLast(ms)), Last(ms))
  }

  /** The runs glued back into one sequence of lines. */
  function Concat(rs: seq<seq<FieldMap>>): seq<FieldMap>
  {
    if rs == [] then [] else Concat(DropLast(rs)) + Last(rs)
  }

  /** All lines of each run carry that run's `msg`. */
  predicate Uniform(rs: seq<seq<FieldMap>>)
    requires WellFormedRuns(rs)
  {
    forall j, a :: 0 <= j < |rs| && 0 <= a < |rs[j]| ==> Msg(rs[j][a]) == Msg(rs[j][0])
  }

  /** Neighbouring runs differ in `msg`: no run could be extended by its successor's first line. */
  predicate Separated(rs: seq<seq<FieldMap>>)
    requires WellFormedRuns(rs)
  {
    forall j :: 0 <= j < |rs| - 1 ==> Msg(Last(rs[j])) != Msg(rs[j + 1][0])
  }

  lemma ExtendConcat(rs: seq<seq<FieldMap>>, m: FieldMap)
    requires WellFormedRuns(rs)
    ensures Concat(Extend(rs, m)) == Concat(rs) + [m]
    ensures Last(Last(Extend(rs, m))) == m
  {
    var r := Extend(rs, m);
    if rs != [] && Msg(Last(Last(rs))) == Msg(m) {
      var front, run := DropLast(rs), Last(rs);
      assert DropLast(r) == front && Last(r) == run + [m];
      calc {
        Concat(r);
        Concat(front) + (run + [m]);
        (Concat(front) + run) + [m];
        Concat(rs) + [m];
      }
    } else {
      assert DropLast(r) == rs && Last(r) == [m];
    }
  }

  lemma ExtendUniform(rs: seq<seq<FieldMap>>, m: FieldMap)
    requires WellFormedRuns(rs) && Uniform(rs)
    ensures Uniform(Extend(rs, m))
  {
    var r := Extend(rs, m);
    if rs != [] && Msg(Last(Last(rs))) == Msg(m) {
      var n := |rs| - 1;
      assert forall j :: 0 <= j < n ==> r[j] == rs[j];
      assert r[n] == rs[n] + [m];
    } else {
      assert forall j :: 0 <= j < |rs| ==> r[j] == rs[j];
    }
  }

  lemma ExtendSeparated(rs: seq<seq<FieldMap>>, m: FieldMap)
    requires WellFormedRuns(rs) && Separated(rs)
    ensures Separated(Extend(rs, m))
  {
    var r := Extend(rs, m);
    if rs != [] && Msg(Last(Last(rs))) == Msg(m) {
      var n := |rs| - 1;
      assert forall j :: 0 <= j < n ==> r[j] == rs[j];
      assert r[n][0] == rs[n][0];
    } else {
      assert forall j :: 0 <= j < |rs| ==> r[j] == rs[j];
    }
  }

  lemma ExtendKeeps(rs: seq<seq<FieldMap>>, m: FieldMap, P: FieldMap -> bool)
    requires WellFormedRuns(rs) && P(m)
    requires forall j, a :: 0 <= j < |rs| && 0 <= a < |rs[j]| ==> P(rs[j][a])
    ensures forall j, a :: 0 <= j < |Extend(rs, m)| && 0 <= a < |Extend(rs, m)[j]| ==> P(Extend(rs, m)[j][a])
  {
    var r := Extend(rs, m);
    if rs != [] && Msg(Last(Last(rs))) == Msg(m) {
      var n := |rs| - 1;
      assert forall j :: 0 <= j < n ==> r[j] == rs[j];
      assert r[n] == rs[n] + [m];
    } else {
      assert forall j :: 0 <= j < |rs| ==> r[j] == rs[j];
    }
  }

  lemma RunsSnoc(ms: seq<FieldMap>, m: FieldMap)
    ensures Runs(ms + [m]) == Extend(Runs(ms), m)
  {
    assert DropLast(ms + [m]) == ms;
  }

  /** Glued together, the runs give the lines back, the last run ending with the last line. */
  lemma {:induction false} RunsConcat(ms: seq<FieldMap>)
    ensures Concat(Runs(ms)) == ms
    ensures ms != [] ==> Last(Last(Runs(ms))) == Last(ms)
    decreases |ms|
  {
    if ms != [] {
      var pre, m := DropLast(ms), Last(ms);
      assert ms == pre + [m];
      RunsConcat(pre);
      RunsSnoc(pre, m);
      ExtendConcat(Runs(pre), m);
    }
  }

  /** All lines of a run share its `msg`, and neighbouring runs differ in `msg`. */
  lemma {:induction false} RunsMaximal(ms: seq<FieldMap>)
    ensures Uniform(Runs(ms)) && Separated(Runs(ms))
    decreases |ms|
  {
    if ms != [] {
      var pre, m := DropLast(ms), Last(ms);
      assert ms == pre + [m];
      RunsMaximal(pre);
      RunsSnoc(pre, m);
      ExtendUniform(Runs(pre), m);
      ExtendSeparated(Runs(pre), m);
    }
  }

  /**
   * The runs partition the lines: glued together they give the input back
   * (the last run ending with the last line), all lines of a run share its
   * `msg`, and neighbouring runs differ in `msg`, so each run is maximal.
   */
  lemma RunsPartition(ms: seq<FieldMap>)
    ensures Concat(Runs(ms)) == ms
    ensures ms != [] ==> Last(Last(Runs(ms))) == Last(ms)
    ensures Uniform(Runs(ms)) && Separated(Runs(ms))
  {
    RunsConcat(ms);
    RunsMaximal(ms);
  }

  /** A property of every line is a property of every line of every run. */
  lemma {:induction false} RunsKeep(ms: seq<FieldMap>, P: FieldMap -> bool)
    requires forall i :: 0 <= i < |ms| ==> P(ms[i])
    ensures forall j, a :: 0 <= j < |Runs(ms)| && 0 <= a < |Runs(ms)[j]| ==> P(Runs(ms)[j][a])
    decreases |ms|
  {
    if ms != [] {
      var pre := DropLast(ms);
      RunsKeep(pre, P);
      ExtendKeeps(Runs(pre), Last(ms), P);
    }
  }

  // ---------------------------------------------------------------------
  // Merging a run into one event, and the events the fold emits
  // ---------------------------------------------------------------------

  /** Line `j` of the run holds field `k`. */
  predicate Holds(run: seq<FieldMap>, j: int, k: string)
  {
    0 <= j < |run| && k in run[j]
  }

  /** Line `j` is the first line of the run that holds field `k`. */
  predicate FirstHolds(run: seq<FieldMap>, j: int, k: string)
  {
    Holds(run, j, k) && forall i :: 0 <= i < j ==> !Holds(run, i, k)
  }

  /**
   * The event a run merges into: each further line `d` is merged as
   * `{**d, **old_log}`, so the pending event's values win.
   */
  function Merged(run: seq<FieldMap>): FieldMap
    requires run != []
  {
    if |run| == 1 then run[0] else Last(run) + Merged(DropLast(run))
  }

  /** The events emitted when these runs are each closed by a line with a different `msg`. */
  function Emitted(rs: seq<seq<FieldMap>>): seq<FieldMap>
    requires WellFormedRuns(rs)
  {
    if rs == [] then []
    else
      var run := Last(rs);
      Emitted(DropLast(rs)) + (if Msg(run[0]) != "none" then [Merged(run)] else [])
  }

  /**
   * The events of a sequence of tokenized lines: every run but the last is
   * emitted (or skipped when its `msg` is "none"), and the last run only
   * when `flush`.
   */
  function EventsOf(ms: seq<FieldMap>, flush: bool): seq<FieldMap>
  {
    var rs := Runs(ms);
    if rs == [] then []
    else Emitted(DropLast(rs)) + (if flush then [Merged(Last(rs))] else [])
  }

  // ---------------------------------------------------------------------
  // parse_logs
  // ---------------------------------------------------------------------

  /** The dictionaries of the lines, in order. */
  function TokenizeAll(logs: seq<string>): (ms: seq<FieldMap>)
    ensures |ms| == |logs|
  {
    if logs == [] then [] else TokenizeAll(DropLast(logs)) + [Tokenize(Last(logs))]
  }

  lemma {:induction false} TokenizeAllAt(logs: seq<string>)
    ensures forall j :: 0 <= j < |logs| ==> TokenizeAll(logs)[j] == Tokenize(logs[j])
    decreases |logs|
  {
    if logs != [] {
      TokenizeAllAt(DropLast(logs));
    }
  }

  /** The line, if any, where `parse_logs` raises for lack of a `msg` field: the first one without it. */
  function FirstMissingMsg(logs: seq<string>): (r: Option<nat>)
    ensures r.Some? ==> r.value < |logs| && "msg" !in Tokenize(logs[r.value])
    ensures r.Some? ==> forall j :: 0 <= j < r.value ==> "msg" in Tokenize(logs[j])
    ensures r.None? ==> forall j :: 0 <= j < |logs| ==> "msg" in Tokenize(logs[j])
  {
    if logs == [] then None
    else
      match FirstMissingMsg(DropLast(logs))
      case Some(i) => Some(i)
      case None => if "msg" !in Tokenize(Last(logs)) then Some(|logs| - 1) else None
  }

  /** Python's `list.index`: the position of the first occurrence of `x`. */
  function IndexOf(s: seq<string>, x: string): (r: nat)
    requires x in s
    ensures r < |s| && s[r] == x
    ensures forall j :: 0 <= j < r ==> s[j] != x
  {
    if s[0] == x then 0
    else
      assert x in s[1..] by {
        var i :| 0 <= i < |s| && s[i] == x;
        assert s[1..][i - 1] == x;
      }
      var r := 1 + IndexOf(s[1..], x);
      assert forall j :: 1 <= j < r ==> s[j] == s[1..][j - 1];
      r
  }

  /** The final flush happens: the last line's text does not occur earlier. */
  predicate FlushesLast(logs: seq<string>)
  {
    |logs| > 0 && Last(logs) !in DropLast(logs)
  }

  /** What `parse_logs` returns, or the error it raises. */
  function ParseLogsSpec(logs: seq<string>): Result<seq<FieldMap>, ParseError>
  {
    match FirstMissingMsg(logs)
    case Some(i) => Failure(MissingMsg(i))
    case None => Success(EventsOf(TokenizeAll(logs), FlushesLast(logs)))
  }

  // ---------------------------------------------------------------------
  // What the runs-based definition `ParseLogsSpec` promises
  // ---------------------------------------------------------------------

  /**
   * A merged run holds exactly the fields of its lines, and each field has
   * the value of the first line that holds it.
   */
  lemma {:induction false} MergedFields(run: seq<FieldMap>)
    requires run != []
    ensures forall k :: k in Merged(run) <==> exists j :: Holds(run, j, k)
    ensures forall j, k :: FirstHolds(run, j, k) ==> k in Merged(run) && Merged(run)[k] == run[j][k]
    decreases |run|
  {
    if |run| == 1 {
      assert forall k :: k in Merged(run) ==> Holds(run, 0, k);
    } else {
      var pre, m := DropLast(run), Last(run);
      MergedFields(pre);
      forall j, k | Holds(pre, j, k) ensures Holds(run, j, k) {
        assert run[j] == pre[j];
      }
      forall k | k in Merged(run) ensures exists j :: Holds(run, j, k) {
        if k !in Merged(pre) {
          assert Holds(run, |run| - 1, k);
        } else {
          var j :| Holds(pre, j, k);
          assert Holds(run, j, k);
        }
      }
      forall j, k | FirstHolds(run, j, k)
        ensures k in Merged(run) && Merged(run)[k] == run[j][k]
      {
        if j < |pre| {
          assert run[j] == pre[j];
          forall i | 0 <= i < j ensures !Holds(pre, i, k) {
            assert !Holds(run, i, k);
            assert run[i] == pre[i];
          }
          assert FirstHolds(pre, j, k);
        } else {
          forall i | 0 <= i < |pre| ensures !Holds(pre, i, k) {
            assert !Holds(run, i, k);
            assert run[i] == pre[i];
          }
        }
      }
    }
  }

  /** A merged run keeps the `msg` of its first line. */
  lemma MergedMsg(run: seq<FieldMap>)
    requires run != [] && "msg" in run[0]
    ensures "msg" in Merged(run) && Merged(run)["msg"] == run[0]["msg"]
  {
    MergedFields(run);
    assert FirstHolds(run, 0, "msg");
  }

  /** Every emitted event carries a `msg` other than "none", and there is at most one per run. */
  lemma {:induction false} EmittedNotNone(rs: seq<seq<FieldMap>>)
    requires WellFormedRuns(rs)
    requires forall j :: 0 <= j < |rs| ==> "msg" in rs[j][0]
    ensures |Emitted(rs)| <= |rs|
    ensures forall k :: 0 <= k < |Emitted(rs)| ==> "msg" in Emitted(rs)[k] && Emitted(rs)[k]["msg"] != "none"
    decreases |rs|
  {
    if rs != [] {
      EmittedNotNone(DropLast(rs));
      MergedMsg(Last(rs));
    }
  }

  /** When no run's `msg` reads "none", every run is emitted, in order. */
  lemma {:induction false} EmittedAll(rs: seq<seq<FieldMap>>)
    requires WellFormedRuns(rs)
    requires forall j :: 0 <= j < |rs| ==> Msg(rs[j][0]) != "none"
    ensures |Emitted(rs)| == |rs|
    ensures forall k :: 0 <= k < |rs| ==> Emitted(rs)[k] == Merged(rs[k])
    decreases |rs|
  {
    if rs != [] {
      EmittedAll(DropLast(rs));
    }
  }

  /**
   * Grouping by adjacency: when no line's `msg` reads "none" and the final
   * flush happens, the output holds exactly one merged event per maximal run
   * of adjacent equal-`msg` lines, in input order.
   */
  lemma EventsAreRuns(ms: seq<FieldMap>)
    requires forall i :: 0 <= i < |ms| ==> Msg(ms[i]) != "none"
    ensures |EventsOf(ms, true)| == |Runs(ms)|
    ensures forall k :: 0 <= k < |Runs(ms)| ==> EventsOf(ms, true)[k] == Merged(Runs(ms)[k])
  {
    var rs := Runs(ms);
    if rs != [] {
      var front := DropLast(rs);
      assert forall j :: 0 <= j < |front| ==> Msg(front[j][0]) != "none" by {
        RunsKeep(ms, m => Msg(m) != "none");
        forall j | 0 <= j < |front|
          ensures Msg(front[j][0]) != "none"
        {
          assert front[j] == rs[j];
        }
      }
      EmittedAll(front);
      assert EventsOf(ms, true) == Emitted(front) + [Merged(Last(rs))];
      forall k | 0 <= k < |rs|
        ensures EventsOf(ms, true)[k] == Merged(rs[k])
      {
        if k < |front| {
          assert rs[k] == front[k];
        }
      }
    }
  }

  /**
   * The sentinel: no event emitted on a change of `msg` has `msg` "none";
   * such an event reaches the output only as the final flushed one, which
   * is the merge of the last run.
   */
  lemma NoneOnlyByFlush(ms: seq<FieldMap>, flush: bool)
    requires AllHaveMsg(ms)
    ensures var out := EventsOf(ms, flush);
      forall k :: 0 <= k < |out| && !(flush && k == |out| - 1) ==> "msg" in out[k] && out[k]["msg"] != "none"
    ensures flush && ms != [] ==> EventsOf(ms, true) != [] && Last(EventsOf(ms, true)) == Merged(Last(Runs(ms)))
    ensures !flush && ms != [] ==> |EventsOf(ms, false)| < |Runs(ms)|
  {
    var rs := Runs(ms);
    RunsKeep(ms, m => "msg" in m);
    if rs != [] {
      forall j | 0 <= j < |DropLast(rs)| ensures "msg" in DropLast(rs)[j][0] {
        assert DropLast(rs)[j][0] == rs[j][0];
      }
      EmittedNotNone(DropLast(rs));
    }
  }

  /** When `index` finds the line's text only at the last position, that line is the last and its text is new. */
  lemma IndexLastFlushes(logs: seq<string>, i: nat)
    requires i < |logs| && IndexOf(logs, logs[i]) == |logs| - 1
    ensures i == |logs| - 1 && FlushesLast(logs)
  {
    var n := |logs|;
    assert i == n - 1 by {
      if i < n - 1 {
        assert logs[i] != logs[i];
      }
    }
    forall j | 0 <= j < n - 1
      ensures DropLast(logs)[j] != Last(logs)
    {
      assert DropLast(logs)[j] == logs[j];
    }
  }

  /** When line `i` is the last and its text is new, `index` finds it at the last position. */
  lemma FlushesIndexLast(logs: seq<string>, i: nat)
    requires i == |logs| - 1 && FlushesLast(logs)
    ensures IndexOf(logs, logs[i]) == |logs| - 1
  {
    var n, r := |logs|, IndexOf(logs, logs[i]);
    assert logs[i] == Last(logs);
    if r < n - 1 {
      assert DropLast(logs)[r] == logs[r];
      assert false;
    }
  }

  /** The final flush fires at the iteration of line `i` exactly when `i` is the last line and its text is new. */
  lemma FlushIndexCheck(logs: seq<string>, i: nat)
    requires i < |logs|
    ensures IndexOf(logs, logs[i]) == |logs| - 1 <==> i == |logs| - 1 && FlushesLast(logs)
  {
    if IndexOf(logs, logs[i]) == |logs| - 1 {
      IndexLastFlushes(logs, i);
    }
    if i == |logs| - 1 && FlushesLast(logs) {
      FlushesIndexLast(logs, i);
    }
  }

  // ---------------------------------------------------------------------
  // The loop of parse_logs, proved against the runs-based definition `ParseLogsSpec`
  // ---------------------------------------------------------------------

  /** The events already emitted when these are the runs so far: all runs but the pending one. */
  function Closed(rs: seq<seq<FieldMap>>): seq<FieldMap>
    requires WellFormedRuns(rs)
  {
    if rs == [] then [] else Emitted(DropLast(rs))
  }

  /** `oldLog` is the pending event of these runs, and its `msg` is the last run's. */
  predicate Pending(rs: seq<seq<FieldMap>>, oldLog: FieldMap)
    requires WellFormedRuns(rs)
  {
    rs != [] && oldLog == Merged(Last(rs)) && "msg" in oldLog &&
    oldLog["msg"] == Msg(Last(Last(rs))) && oldLog["msg"] == Msg(Last(rs)[0])
  }

  /** `oldLog` is what `parse_logs` holds after the lines `ms`: the sentinel before any line, else their pending event. */
  predicate Accumulated(ms: seq<FieldMap>, oldLog: FieldMap)
  {
    if ms == [] then oldLog == Sentinel else Pending(Runs(ms), oldLog)
  }

  /** One more line extends the runs; the pending event and the emitted ones follow. */
  lemma FoldExtend(rs: seq<seq<FieldMap>>, d: FieldMap, oldLog: FieldMap)
    requires WellFormedRuns(rs) && "msg" in d
    requires rs == [] ==> oldLog == Sentinel
    requires rs != [] ==> Pending(rs, oldLog)
    ensures "msg" in oldLog
    ensures Pending(Extend(rs, d), if oldLog["msg"] == d["msg"] then d + oldLog else d)
    ensures Closed(Extend(rs, d)) ==
      Closed(rs) + (if oldLog["msg"] != d["msg"] && oldLog["msg"] != "none" then [oldLog] else [])
  {
    var r := Extend(rs, d);
    if rs == [] {
      assert r == [[d]];
      if oldLog["msg"] == d["msg"] {
        assert d + oldLog == d;
      }
    } else if oldLog["msg"] == d["msg"] {
      var run := Last(rs);
      assert DropLast(r) == DropLast(rs) && Last(r) == run + [d];
      assert DropLast(run + [d]) == run && (run + [d])[0] == run[0];
    } else {
      assert DropLast(r) == rs && Last(r) == [d];
    }
  }

  /**
   * One iteration of the fold: merging into the pending event when the
   * `msg` values match, or emitting it (unless its `msg` is "none") and
   * starting over, is what one more line does to the runs.
   */
  lemma FoldStep(ms: seq<FieldMap>, d: FieldMap, oldLog: FieldMap)
    requires "msg" in d && Accumulated(ms, oldLog)
    ensures "msg" in oldLog
    ensures Accumulated(ms + [d], if oldLog["msg"] == d["msg"] then d + oldLog else d)
    ensures Closed(Runs(ms + [d])) ==
      Closed(Runs(ms)) + (if oldLog["msg"] != d["msg"] && oldLog["msg"] != "none" then [oldLog] else [])
  {
    RunsSnoc(ms, d);
    FoldExtend(Runs(ms), d, oldLog);
  }

  /** The tokenized prefix grows by the next line's fields, and keeps its `msg` fields. */
  lemma TokenizedStep(logs: seq<string>, i: nat, ms: seq<FieldMap>, d: FieldMap)
    requires i < |logs| && ms == TokenizeAll(logs[..i]) && AllHaveMsg(ms)
    requires d == Tokenize(logs[i]) && "msg" in d
    ensures ms + [d] == TokenizeAll(logs[..i + 1]) && AllHaveMsg(ms + [d])
  {
    assert DropLast(logs[..i + 1]) == logs[..i];
  }

  /** A line without `msg`, after lines that all have one, is where parsing fails. */
  lemma SpecMissing(logs: seq<string>, i: nat)
    requires i < |logs| && AllHaveMsg(TokenizeAll(logs[..i])) && "msg" !in Tokenize(logs[i])
    ensures ParseLogsSpec(logs) == Failure(MissingMsg(i))
  {
    TokenizeAllAt(logs[..i]);
    assert forall j :: 0 <= j < i ==> logs[..i][j] == logs[j];
  }

  /** When every line has a `msg`, parsing succeeds with the events of the tokenized lines. */
  lemma SpecComplete(logs: seq<string>)
    requires AllHaveMsg(TokenizeAll(logs))
    ensures ParseLogsSpec(logs) == Success(EventsOf(TokenizeAll(logs), FlushesLast(logs)))
  {
    TokenizeAllAt(logs);
  }

  /**
   * The merge step of `parse_logs` for one more line `d`: merge it into the
   * pending event when the `msg` values match, otherwise close the pending
   * event (dropping it when its `msg` is "none") and start a new one. It
   * takes the pending and closed events of the lines `ms` to those of
   * `ms + [d]`.
   */
  method MergeLine(ghost ms: seq<FieldMap>, oldLog: FieldMap, d: FieldMap, allLogs: seq<FieldMap>)
    returns (newOld: FieldMap, newAll: seq<FieldMap>)
    requires "msg" in d && Accumulated(ms, oldLog)
    requires allLogs == Closed(Runs(ms))
    ensures Accumulated(ms + [d], newOld)
    ensures newAll == Closed(Runs(ms + [d]))
  {
    FoldStep(ms, d, oldLog);
    var e := d;
    newAll := allLogs;
    if oldLog["msg"] == e["msg"] {
      e := e + oldLog;
      newOld := e;
    } else {
      if oldLog["msg"] != "none" {
        newAll := newAll + [oldLog];
        newOld := e;
      } else {
        newOld := e;
      }
    }
  }

  /** The flush test of `parse_logs` at line `i` appends the pending event exactly at the end, when the last line is new. */
  lemma FlushStep(logs: seq<string>, i: nat, closed: seq<FieldMap>, oldLog: FieldMap, allLogs: seq<FieldMap>)
    requires i < |logs|
    requires allLogs == closed + (if IndexOf(logs, logs[i]) == |logs| - 1 then [oldLog] else [])
    ensures allLogs == closed + (if i + 1 == |logs| && FlushesLast(logs) then [oldLog] else [])
  {
    FlushIndexCheck(logs, i);
  }

  /**
   * One pass of the loop of `parse_logs`, at line `i`: tokenize it, fail
   * when it has no `msg`, merge it, and append the pending event when the
   * line's first occurrence is the last position. It takes the state after
   * the first `i` lines to the state after `i + 1` lines.
   */
  method ParseLine(logs: seq<string>, i: nat, oldLog: FieldMap, allLogs: seq<FieldMap>)
    returns (ok: bool, newOld: FieldMap, newAll: seq<FieldMap>)
    requires i < |logs| && AllHaveMsg(TokenizeAll(logs[..i])) && Accumulated(TokenizeAll(logs[..i]), oldLog)
    requires allLogs == Closed(Runs(TokenizeAll(logs[..i])))
    ensures !ok ==> ParseLogsSpec(logs) == Failure(MissingMsg(i))
    ensures ok ==> AllHaveMsg(TokenizeAll(logs[..i + 1])) && Accumulated(TokenizeAll(logs[..i + 1]), newOld)
    ensures ok ==> (newAll == Closed(Runs(TokenizeAll(logs[..i + 1]))) +
      (if i + 1 == |logs| && FlushesLast(logs) then [newOld] else []))
  {
    var l := logs[i];
    var d := TokenizeLine(l);
    if "msg" !in d {
      SpecMissing(logs, i);
      return false, oldLog, allLogs;
    }
    ghost var ms := TokenizeAll(logs[..i]);
    TokenizedStep(logs, i, ms, d);
    newOld, newAll := MergeLine(ms, oldLog, d, allLogs);
    ghost var closed := newAll;
    if IndexOf(logs, l) == |logs| - 1 {
      newAll := newAll + [newOld];
    }
    FlushStep(logs, i, closed, newOld, newAll);
    ok := true;
  }

  /** Once every line is consumed, the state holds the specified result. */
  lemma ParseDone(logs: seq<string>, oldLog: FieldMap, allLogs: seq<FieldMap>)
    requires AllHaveMsg(TokenizeAll(logs[..|logs|])) && Accumulated(TokenizeAll(logs[..|logs|]), oldLog)
    requires allLogs == Closed(Runs(TokenizeAll(logs[..|logs|]))) + (if FlushesLast(logs) then [oldLog] else [])
    ensures ParseLogsSpec(logs) == Success(allLogs)
  {
    assert logs[..|logs|] == logs;
    SpecComplete(logs);
    if logs == [] {
      assert !FlushesLast(logs);
    }
  }

  /**
   * `parse_logs`: run the loop body over every line, stopping at the first
   * line without `msg`.
   */
  method ParseLogs(logs: seq<string>) returns (r: Result<seq<FieldMap>, ParseError>)
    ensures r == ParseLogsSpec(logs)
    ensures logs == [] ==> r == Success([])
  {
    var allLogs: seq<FieldMap> := [];
    var oldLog := Sentinel;
    var i := 0;
    while i < |logs|
      invariant 0 <= i <= |logs|
      invariant AllHaveMsg(TokenizeAll(logs[..i])) && Accumulated(TokenizeAll(logs[..i]), oldLog)
      invariant allLogs == Closed(Runs(TokenizeAll(logs[..i]))) + (if i == |logs| && FlushesLast(logs) then [oldLog] else [])
    {
      var ok;
      ok, oldLog, allLogs := ParseLine(logs, i, oldLog, allLogs);
      if !ok {
        return Failure(MissingMsg(i));
      }
      i := i + 1;
    }
    ParseDone(logs, oldLog, allLogs);
    r := Success(allLogs);
  }
}
