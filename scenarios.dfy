/**
 * What `parse_logs` does on short inputs, line by line: the adjacent merge
 * and its priority, non-adjacent lines kept apart, and the quirks of the
 * "none" sentinel and of the `index`-based final flush.
 */
module ParseScenarios {
  import opened Wrappers
  import opened Tokenizer
  import opened EventMerger

  lemma RunsOfOne(a: FieldMap)
    ensures Runs([a]) == [[a]]
  {
    RunsSnoc([], a);
    assert [] + [a] == [a];
  }

  lemma RunsOfTwo(a: FieldMap, b: FieldMap)
    ensures Runs([a, b]) == if Msg(a) == Msg(b) then [[a, b]] else [[a], [b]]
  {
    RunsOfOne(a);
    RunsSnoc([a], b);
    assert [a] + [b] == [a, b];
  }

  lemma RunsOfThree(a: FieldMap, b: FieldMap, c: FieldMap)
    requires Msg(a) != Msg(b) && Msg(b) != Msg(c)
    ensures Runs([a, b, c]) == [[a], [b], [c]]
  {
    RunsOfTwo(a, b);
    RunsSnoc([a, b], c);
    assert [a, b] + [c] == [a, b, c];
  }

  lemma EmittedOne(a: FieldMap)
    ensures Emitted([[a]]) == if Msg(a) != "none" then [a] else []
  {
    assert DropLast([[a]]) == [];
  }

  lemma EmittedTwo(a: FieldMap, b: FieldMap)
    ensures Emitted([[a], [b]]) == Emitted([[a]]) + (if Msg(b) != "none" then [b] else [])
  {
    assert DropLast([[a], [b]]) == [[a]];
  }

  lemma EventsOfOne(a: FieldMap)
    ensures EventsOf([a], true) == [a]
  {
    RunsOfOne(a);
    assert Emitted([]) == [];
    assert Merged([a]) == a;
  }

  lemma EventsOfSameTwo(a: FieldMap, b: FieldMap, flush: bool)
    requires Msg(a) == Msg(b)
    ensures EventsOf([a, b], flush) == if flush then [b + a] else []
  {
    RunsOfTwo(a, b);
    assert Merged([a, b]) == b + a by {
      assert DropLast([a, b]) == [a];
    }
    assert Emitted([]) == [];
  }

  lemma EventsOfNoneThenOther(a: FieldMap, b: FieldMap)
    requires Msg(a) == "none" != Msg(b)
    ensures EventsOf([a, b], true) == [b]
  {
    RunsOfTwo(a, b);
    assert DropLast([[a], [b]]) == [[a]];
    EmittedOne(a);
    assert Merged([b]) == b;
  }

  lemma EventsOfThree(a: FieldMap, b: FieldMap, c: FieldMap)
    requires Msg(a) != Msg(b) && Msg(b) != Msg(c)
    requires Msg(a) != "none" && Msg(b) != "none"
    ensures EventsOf([a, b, c], true) == [a, b, c]
    ensures EventsOf([a, b, c], false) == [a, b]
  {
    RunsOfThree(a, b, c);
    assert DropLast([[a], [b], [c]]) == [[a], [b]];
    EmittedOne(a);
    EmittedTwo(a, b);
    assert Merged([c]) == c;
    assert [a, b] + [c] == [a, b, c];
  }

  /** Parsing fails exactly when some line has no `msg` field, and then nothing is returned. */
  lemma MissingMsgIsFatal(logs: seq<string>)
    ensures ParseLogsSpec(logs).Failure? <==> exists j :: 0 <= j < |logs| && "msg" !in Tokenize(logs[j])
  {
    if ParseLogsSpec(logs).Failure? {
      var i := FirstMissingMsg(logs).value;
      assert 0 <= i < |logs| && "msg" !in Tokenize(logs[i]);
    }
  }

  /** One line is one event, even when its `msg` is "none": the final flush emits it. */
  lemma SingleLine(l: string)
    requires "msg" in Tokenize(l)
    ensures ParseLogsSpec([l]) == Success([Tokenize(l)])
  {
    calc {
      ParseLogsSpec([l]);
      { TokenizeAllAt([l]); SpecComplete([l]); }
      Success(EventsOf(TokenizeAll([l]), FlushesLast([l])));
      { TokenizeAllAt([l]);
        assert TokenizeAll([l]) == [Tokenize(l)]; assert FlushesLast([l]); }
      Success(EventsOf([Tokenize(l)], true));
      { EventsOfOne(Tokenize(l)); }
      Success([Tokenize(l)]);
    }
  }

  /**
   * Two different adjacent lines with the same `msg` merge into one event
   * holding the fields of both, the first line's values winning.
   */
  lemma AdjacentLinesMerge(l1: string, l2: string)
    requires "msg" in Tokenize(l1) && "msg" in Tokenize(l2)
    requires Tokenize(l1)["msg"] == Tokenize(l2)["msg"] && l1 != l2
    ensures ParseLogsSpec([l1, l2]) == Success([Tokenize(l2) + Tokenize(l1)])
    ensures forall k :: k in Tokenize(l1) ==> ParseLogsSpec([l1, l2]).value[0][k] == Tokenize(l1)[k]
    ensures forall k :: k in Tokenize(l2) && k !in Tokenize(l1) ==> ParseLogsSpec([l1, l2]).value[0][k] == Tokenize(l2)[k]
  {
    calc {
      ParseLogsSpec([l1, l2]);
      { TokenizeAllAt([l1, l2]); SpecComplete([l1, l2]); }
      Success(EventsOf(TokenizeAll([l1, l2]), FlushesLast([l1, l2])));
      { TokenizeAllAt([l1, l2]);
        assert TokenizeAll([l1, l2]) == [Tokenize(l1), Tokenize(l2)]; assert FlushesLast([l1, l2]); }
      Success(EventsOf([Tokenize(l1), Tokenize(l2)], true));
      { EventsOfSameTwo(Tokenize(l1), Tokenize(l2), true); }
      Success([Tokenize(l2) + Tokenize(l1)]);
    }
  }

  /** Two identical lines produce no event at all: the final flush sees the text earlier and is skipped. */
  lemma RepeatedLineDropsGroup(l: string)
    requires "msg" in Tokenize(l)
    ensures ParseLogsSpec([l, l]) == Success([])
  {
    calc {
      ParseLogsSpec([l, l]);
      { TokenizeAllAt([l, l]); SpecComplete([l, l]); }
      Success(EventsOf(TokenizeAll([l, l]), FlushesLast([l, l])));
      { TokenizeAllAt([l, l]);
        assert TokenizeAll([l, l]) == [Tokenize(l), Tokenize(l)];
        assert DropLast([l, l]) == [l]; }
      Success(EventsOf([Tokenize(l), Tokenize(l)], false));
      { EventsOfSameTwo(Tokenize(l), Tokenize(l), false); }
      Success([]);
    }
  }

  /** Lines with the same `msg` that are not adjacent stay separate events. */
  lemma NonAdjacentNotMerged(l1: string, l2: string, l3: string)
    requires "msg" in Tokenize(l1) && "msg" in Tokenize(l2) && "msg" in Tokenize(l3)
    requires Tokenize(l1)["msg"] == Tokenize(l3)["msg"] != Tokenize(l2)["msg"]
    requires Tokenize(l1)["msg"] != "none" && Tokenize(l2)["msg"] != "none"
    requires l3 != l1 && l3 != l2
    ensures ParseLogsSpec([l1, l2, l3]) == Success([Tokenize(l1), Tokenize(l2), Tokenize(l3)])
  {
    calc {
      ParseLogsSpec([l1, l2, l3]);
      { TokenizeAllAt([l1, l2, l3]); SpecComplete([l1, l2, l3]); }
      Success(EventsOf(TokenizeAll([l1, l2, l3]), FlushesLast([l1, l2, l3])));
      { TokenizeAllAt([l1, l2, l3]);
        assert TokenizeAll([l1, l2, l3]) == [Tokenize(l1), Tokenize(l2), Tokenize(l3)];
        assert DropLast([l1, l2, l3]) == [l1, l2]; }
      Success(EventsOf([Tokenize(l1), Tokenize(l2), Tokenize(l3)], true));
      { EventsOfThree(Tokenize(l1), Tokenize(l2), Tokenize(l3)); }
      Success([Tokenize(l1), Tokenize(l2), Tokenize(l3)]);
    }
  }

  /** When the last line repeats an earlier line's text, its group is lost. */
  lemma RepeatedLastLineDropsFinalGroup(l1: string, l2: string)
    requires "msg" in Tokenize(l1) && "msg" in Tokenize(l2)
    requires Tokenize(l1)["msg"] != Tokenize(l2)["msg"]
    requires Tokenize(l1)["msg"] != "none" && Tokenize(l2)["msg"] != "none"
    ensures ParseLogsSpec([l1, l2, l1]) == Success([Tokenize(l1), Tokenize(l2)])
  {
    calc {
      ParseLogsSpec([l1, l2, l1]);
      { TokenizeAllAt([l1, l2, l1]); SpecComplete([l1, l2, l1]); }
      Success(EventsOf(TokenizeAll([l1, l2, l1]), FlushesLast([l1, l2, l1])));
      { TokenizeAllAt([l1, l2, l1]);
        assert TokenizeAll([l1, l2, l1]) == [Tokenize(l1), Tokenize(l2), Tokenize(l1)];
        assert DropLast([l1, l2, l1])[0] == l1; }
      Success(EventsOf([Tokenize(l1), Tokenize(l2), Tokenize(l1)], false));
      { EventsOfThree(Tokenize(l1), Tokenize(l2), Tokenize(l1)); }
      Success([Tokenize(l1), Tokenize(l2)]);
    }
  }

  /** A group whose `msg` is literally "none" is taken for the sentinel and skipped when the next group starts. */
  lemma NoneGroupSkipped(l1: string, l2: string)
    requires "msg" in Tokenize(l1) && "msg" in Tokenize(l2)
    requires Tokenize(l1)["msg"] == "none" != Tokenize(l2)["msg"]
    ensures ParseLogsSpec([l1, l2]) == Success([Tokenize(l2)])
  {
    calc {
      ParseLogsSpec([l1, l2]);
      { TokenizeAllAt([l1, l2]); SpecComplete([l1, l2]); }
      Success(EventsOf(TokenizeAll([l1, l2]), FlushesLast([l1, l2])));
      { TokenizeAllAt([l1, l2]);
        assert TokenizeAll([l1, l2]) == [Tokenize(l1), Tokenize(l2)]; assert FlushesLast([l1, l2]); }
      Success(EventsOf([Tokenize(l1), Tokenize(l2)], true));
      { EventsOfNoneThenOther(Tokenize(l1), Tokenize(l2)); }
      Success([Tokenize(l2)]);
    }
  }
}
