/**
 * The line tokenizer of `parse_logs`: a raw audit line is split on single
 * spaces, and every token holding an `=` contributes one field to a fresh
 * dictionary, keyed by the text before its first `=` and valued by the text
 * between its first and second `=`.
 */
module Tokenizer {

  /** A flat field-name to field-value dictionary: one per line, or one per merged event. */
  type FieldMap = map<string, string>

  /**
   * Python's `str.split(sep)` for a one-character separator: the pieces
   * between separators, empty pieces included, so there is always one more
   * piece than there are separators.
   */
  function SplitOn(s: string, sep: char): (r: seq<string>)
    ensures |r| >= 1
    ensures sep in s <==> |r| >= 2
    decreases |s|
  {
    if |s| == 0 then [""]
    else
      var rest := SplitOn(s[1..], sep);
      assert sep in s <==> s[0] == sep || sep in s[1..];
      if s[0] == sep then [""] + rest
      else [[s[0]] + rest[0]] + rest[1..]
  }

  /** The pieces glued back together with the separator between them (Python's `sep.join`). */
  function JoinWith(parts: seq<string>, sep: char): string
    requires |parts| >= 1
  {
    if |parts| == 1 then parts[0] else parts[0] + [sep] + JoinWith(parts[1..], sep)
  }

  /** Splitting loses nothing: joining the pieces gives the line back, and no piece holds the separator. */
  lemma SplitJoin(s: string, sep: char)
    ensures JoinWith(SplitOn(s, sep), sep) == s
    ensures forall k :: 0 <= k < |SplitOn(s, sep)| ==> sep !in SplitOn(s, sep)[k]
  {
    JoinSplit(s, sep);
    SplitPiecesFree(s, sep);
  }

  lemma JoinEmptyFirst(parts: seq<string>, sep: char)
    requires |parts| >= 1
    ensures JoinWith([""] + parts, sep) == [sep] + JoinWith(parts, sep)
  {
    assert ([""] + parts)[1..] == parts;
  }

  lemma JoinExtendFirst(c: char, parts: seq<string>, sep: char)
    requires |parts| >= 1
    ensures JoinWith([[c] + parts[0]] + parts[1..], sep) == [c] + JoinWith(parts, sep)
  {
    var q := [[c] + parts[0]] + parts[1..];
    if |parts| > 1 {
      assert q[1..] == parts[1..];
      assert JoinWith(q, sep) == ([c] + parts[0]) + [sep] + JoinWith(parts[1..], sep);
    }
  }

  lemma {:induction false} JoinSplit(s: string, sep: char)
    ensures JoinWith(SplitOn(s, sep), sep) == s
    decreases |s|
  {
    if |s| > 0 {
      var rest := SplitOn(s[1..], sep);
      JoinSplit(s[1..], sep);
      if s[0] == sep {
        JoinEmptyFirst(rest, sep);
      } else {
        JoinExtendFirst(s[0], rest, sep);
      }
      assert s == [s[0]] + s[1..];
    }
  }

  lemma {:induction false} SplitPiecesFree(s: string, sep: char)
    ensures forall k :: 0 <= k < |SplitOn(s, sep)| ==> sep !in SplitOn(s, sep)[k]
    decreases |s|
  {
    if |s| > 0 {
      var rest := SplitOn(s[1..], sep);
      SplitPiecesFree(s[1..], sep);
      var r := SplitOn(s, sep);
      if s[0] == sep {
        assert forall k :: 1 <= k < |r| ==> r[k] == rest[k - 1];
      } else {
        assert forall k :: 1 <= k < |r| ==> r[k] == rest[k];
        assert r[0] == [s[0]] + rest[0];
      }
    }
  }

  /** Splitting a piece free of the separator in front of more text only extends the first piece. */
  lemma {:induction false} SplitPrefix(p: string, t: string, sep: char)
    requires sep !in p
    ensures SplitOn(p + t, sep) == [p + SplitOn(t, sep)[0]] + SplitOn(t, sep)[1..]
    decreases |p|
  {
    if |p| > 0 {
      SplitPrefix(p[1..], t, sep);
      assert (p + t)[1..] == p[1..] + t;
      assert [p[0]] + (p[1..] + SplitOn(t, sep)[0]) == p + SplitOn(t, sep)[0];
    } else {
      var r := SplitOn(t, sep);
      assert p + t == t;
      assert p + r[0] == r[0];
      assert [r[0]] + r[1..] == r;
    }
  }

  /** The converse round trip: pieces free of the separator are exactly what splitting their join gives. */
  lemma {:induction false} SplitOfJoin(parts: seq<string>, sep: char)
    requires |parts| >= 1
    requires forall k :: 0 <= k < |parts| ==> sep !in parts[k]
    ensures SplitOn(JoinWith(parts, sep), sep) == parts
    decreases |parts|
  {
    if |parts| == 1 {
      SplitPrefix(parts[0], "", sep);
      assert parts[0] + "" == parts[0];
    } else {
      var tail := JoinWith(parts[1..], sep);
      SplitOfJoin(parts[1..], sep);
      SplitPrefix(parts[0], [sep] + tail, sep);
      assert parts[0] + [sep] + tail == parts[0] + ([sep] + tail);
      assert ([sep] + tail)[1..] == tail;
      assert parts[0] + "" == parts[0];
    }
  }

  /** The key of a token: the text before its first `=` (`i.split("=")[0]`). */
  function Key(token: string): string
    requires '=' in token
  {
    SplitOn(token, '=')[0]
  }

  /** The value of a token: the text between its first and second `=` (`i.split("=")[1]`). */
  function Value(token: string): string
    requires '=' in token
  {
    SplitOn(token, '=')[1]
  }

  /**
   * A token reads `Key=Value` and then either ends or goes on with a second
   * `=`: whatever follows a second `=` is lost from the value.
   */
  lemma KeyValueShape(token: string)
    requires '=' in token
    ensures '=' !in Key(token) && '=' !in Value(token)
    ensures |Key(token)| + 1 + |Value(token)| <= |token|
    ensures token[..|Key(token)| + 1 + |Value(token)|] == Key(token) + "=" + Value(token)
    ensures |Key(token)| + 1 + |Value(token)| < |token| ==> token[|Key(token)| + 1 + |Value(token)|] == '='
  {
    var r := SplitOn(token, '=');
    SplitJoin(token, '=');
    assert JoinWith(r, '=') == r[0] + "=" + JoinWith(r[1..], '=');
    var rest := r[1..];
    if |rest| > 1 {
      assert JoinWith(rest, '=') == rest[0] + "=" + JoinWith(rest[1..], '=');
      assert token == (r[0] + "=" + r[1]) + ("=" + JoinWith(rest[1..], '='));
    } else {
      assert token == r[0] + "=" + r[1];
    }
  }

  /** The truncation at work: `a=b=c` gives the key `a` and the value `b`. */
  lemma ValueTruncated()
    ensures Key("a=b=c") == "a" && Value("a=b=c") == "b"
  {
    SplitOfJoin(["a", "b", "c"], '=');
    assert JoinWith(["a", "b", "c"], '=') == "a=b=c";
  }

  /** Token `i` is kept and sets field `k`. */
  predicate Sets(tokens: seq<string>, i: int, k: string)
  {
    0 <= i < |tokens| && '=' in tokens[i] && Key(tokens[i]) == k
  }

  /** Token `i` is the last token that sets field `k`. */
  predicate LastSets(tokens: seq<string>, i: int, k: string)
  {
    Sets(tokens, i, k) && forall j :: i < j < |tokens| ==> !Sets(tokens, j, k)
  }

  /** The dictionary built by storing each kept token's field in order, later tokens overwriting earlier ones. */
  function FieldsOf(tokens: seq<string>): FieldMap
  {
    if tokens == [] then map[]
    else
      var d := FieldsOf(tokens[..|tokens| - 1]);
      var t := tokens[|tokens| - 1];
      if '=' in t then d[Key(t) := Value(t)] else d
  }

  /** The dictionary of one raw line. */
  function Tokenize(line: string): FieldMap
  {
    FieldsOf(SplitOn(line, ' '))
  }

  /**
   * The fields of a token list are exactly the keys of its tokens that hold
   * an `=` (tokens without one, the empty ones included, add nothing), and a
   * repeated key keeps the value of its last token.
   */
  lemma {:induction false} FieldsOfLastWins(tokens: seq<string>)
    ensures forall k :: k in FieldsOf(tokens) <==> exists i :: Sets(tokens, i, k)
    ensures forall i, k :: LastSets(tokens, i, k) ==> k in FieldsOf(tokens) && FieldsOf(tokens)[k] == Value(tokens[i])
    decreases |tokens|
  {
    if tokens != [] {
      var n := |tokens| - 1;
      var pre := tokens[..n];
      var t := tokens[n];
      FieldsOfLastWins(pre);
      forall i, k | Sets(pre, i, k) ensures Sets(tokens, i, k) {
        assert tokens[i] == pre[i];
      }
      forall i, k | Sets(tokens, i, k) && i < n ensures Sets(pre, i, k) {
        assert tokens[i] == pre[i];
      }
      forall i, k | LastSets(tokens, i, k)
        ensures k in FieldsOf(tokens) && FieldsOf(tokens)[k] == Value(tokens[i])
      {
        if i < n {
          assert Sets(pre, i, k);
          assert !Sets(tokens, n, k);
          forall j | i < j < |pre| ensures !Sets(pre, j, k) {
            assert !Sets(tokens, j, k);
            assert tokens[j] == pre[j];
          }
          assert LastSets(pre, i, k);
        }
      }
      forall k | k in FieldsOf(tokens) ensures exists i :: Sets(tokens, i, k) {
        if !('=' in t && Key(t) == k) {
          var i :| Sets(pre, i, k);
          assert Sets(tokens, i, k);
        } else {
          assert Sets(tokens, n, k);
        }
      }
    }
  }

  /**
   * `parse_logs`'s inner loop: split the line on single spaces and store
   * each token holding an `=` into a fresh dictionary.
   */
  method TokenizeLine(line: string) returns (d: FieldMap)
    ensures d == Tokenize(line)
  {
    var splitLine := SplitOn(line, ' ');
    d := map[];
    var i := 0;
    while i < |splitLine|
      invariant 0 <= i <= |splitLine|
      invariant d == FieldsOf(splitLine[..i])
    {
      var token := splitLine[i];
      if '=' in token {
        var k := SplitOn(token, '=')[0];
        var v := SplitOn(token, '=')[1];
        d := d[k := v];
      }
      assert splitLine[..i + 1][..i] == splitLine[..i];
      i := i + 1;
    }
    assert splitLine[..i] == splitLine;
  }
}
