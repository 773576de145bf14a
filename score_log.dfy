/**
 * The score store of main.py: save_result appends one `time;name;score` line
 * to the results log and load_best_score scans every line for the largest
 * score. The file is modelled as the sequence of its lines (a missing file is
 * the empty sequence) and the timestamp as a string supplied by the caller.
 */
module ScoreLog {
  import opened Wrappers
  import opened Text

  /** The line save_result writes for one finished game. */
  function FormatResult(now: string, name: string, score: int): string {
    now + ";" + name + ";" + IntToString(score)
  }

  /** The score a log line contributes: its third `;`-separated field, when that is an integer. */
  function LineScore(line: string): Option<int> {
    var parts := Split(Strip(line), ';');
    if |parts| >= 3 then ParseInt(parts[2]) else None
  }

  /** The best score of a log: the maximum of 0 and every score its lines contribute. */
  function BestScore(lines: seq<string>): (best: int)
    ensures best >= 0
    ensures forall i :: 0 <= i < |lines| && LineScore(lines[i]).Some? ==> LineScore(lines[i]).value <= best
    ensures best == 0 || exists i :: 0 <= i < |lines| && LineScore(lines[i]) == Some(best)
    decreases |lines|
  {
    if lines == [] then 0
    else
      var prev := BestScore(lines[..|lines| - 1]);
      assert forall i :: 0 <= i < |lines| - 1 ==> lines[..|lines| - 1][i] == lines[i];
      match LineScore(lines[|lines| - 1])
      case Some(s) => if s > prev then s else prev
      case None => prev
  }

  /** load_best_score: the scan of the source, one line at a time, keeping the running maximum. */
  method LoadBestScore(lines: seq<string>) returns (best: int)
    ensures best == BestScore(lines)
  {
    best := 0;
    for i := 0 to |lines|
      invariant best == BestScore(lines[..i])
    {
      assert lines[..i + 1][..i] == lines[..i];
      var parts := Split(Strip(lines[i]), ';');
      if |parts| >= 3 {
        var parsed := ParseInt(parts[2]);
        if parsed.Some? {
          var s := parsed.value;
          if s > best {
            best := s;
          }
        }
      }
    }
    assert lines[..|lines|] == lines;
  }

  /** Leading whitespace stripped from `a + ";" + b` comes from `a` alone. */
  lemma {:induction false} StripLeftBeforeSeparator(a: string, b: string)
    ensures StripLeft(a + [';'] + b) == StripLeft(a) + [';'] + b
    decreases |a|
  {
    if a != [] {
      assert (a + [';'] + b)[1..] == a[1..] + [';'] + b;
      if IsSpace(a[0]) {
        StripLeftBeforeSeparator(a[1..], b);
      }
    }
  }

  /** A saved line is the time, a `;`, and then the name and the score separated by `;`. */
  lemma FormatResultShape(now: string, name: string, score: int)
    ensures FormatResult(now, name, score) == now + [';'] + (name + [';'] + IntToString(score))
  {
  }

  /** Stripping a saved line only removes whitespace in front of the time. */
  lemma StripSavedLine(now: string, name: string, score: int)
    ensures Strip(FormatResult(now, name, score)) ==
      StripLeft(now) + [';'] + (name + [';'] + IntToString(score))
  {
    var digits := IntToString(score);
    var rest := name + [';'] + digits;
    FormatResultShape(now, name, score);
    StripLeftBeforeSeparator(now, rest);
    var stripped := StripLeft(now) + [';'] + rest;
    assert stripped[|stripped| - 1] == digits[|digits| - 1];
    StripRightKeepsNonSpaceEnd(stripped);
  }

  /**
   * The fields of a saved line, as load_best_score splits it: the time (less
   * its leading whitespace), then the fields of the name, then the score.
   */
  lemma SavedLineFields(now: string, name: string, score: int)
    requires ';' !in now
    ensures Split(Strip(FormatResult(now, name, score)), ';') ==
      [StripLeft(now)] + Split(name, ';') + [IntToString(score)]
  {
    var digits := IntToString(score);
    StripSavedLine(now, name, score);
    assert ';' !in StripLeft(now) by {
      StripLeftRemovesSpace(now);
    }
    assert ';' !in digits;
    var rest := name + [';'] + digits;
    SplitPrefix(StripLeft(now), rest, ';');
    assert Split(Strip(FormatResult(now, name, score)), ';') == [StripLeft(now)] + Split(rest, ';');
    SplitAppend(name, digits, ';');
    assert Split(rest, ';') == Split(name, ';') + [digits];
  }

  /** A saved line reads back as the saved score, provided neither the time nor the name holds a `;`. */
  lemma ReadBackSavedScore(now: string, name: string, score: int)
    requires ';' !in now && ';' !in name
    ensures LineScore(FormatResult(now, name, score)) == Some(score)
  {
    SavedLineFields(now, name, score);
    assert Split(name, ';') == [name];
    ParseFormattedInt(score);
  }

  /** Appending a saved line makes the best score of the log the larger of the old best and the new score. */
  lemma BestScoreAfterSave(lines: seq<string>, now: string, name: string, score: int)
    requires ';' !in now && ';' !in name
    ensures BestScore(lines + [FormatResult(now, name, score)]) ==
      if score > BestScore(lines) then score else BestScore(lines)
  {
    var extended := lines + [FormatResult(now, name, score)];
    assert extended[..|extended| - 1] == lines;
    ReadBackSavedScore(now, name, score);
  }

  /** A log of two lines that read back as `v1` and `v2` has the larger of 0, `v1` and `v2` as its best score. */
  lemma BestScoreOfTwoLines(first: string, second: string, v1: int, v2: int)
    requires LineScore(first) == Some(v1) && LineScore(second) == Some(v2)
    ensures BestScore([first, second]) ==
      var afterFirst := if v1 > 0 then v1 else 0;
      if v2 > afterFirst then v2 else afterFirst
  {
    var log := [first, second];
    assert log[..1] == [first];
    assert [first][..0] == [];
  }

  /** Two saved games leave the larger of 0 and the two scores as the best. */
  lemma BestScoreOfTwoSaves(t1: string, n1: string, s1: int, t2: string, n2: string, s2: int)
    requires ';' !in t1 && ';' !in n1 && ';' !in t2 && ';' !in n2
    ensures BestScore([FormatResult(t1, n1, s1), FormatResult(t2, n2, s2)]) ==
      var afterFirst := if s1 > 0 then s1 else 0;
      if s2 > afterFirst then s2 else afterFirst
  {
    ReadBackSavedScore(t1, n1, s1);
    ReadBackSavedScore(t2, n2, s2);
    BestScoreOfTwoLines(FormatResult(t1, n1, s1), FormatResult(t2, n2, s2), s1, s2);
  }

  /** A log holding Alice's game with 5 and then Bob's with 9 has best score 9, whatever the times. */
  lemma TwoPlayersScenario(t1: string, t2: string)
    requires ';' !in t1 && ';' !in t2
    ensures BestScore([FormatResult(t1, "Alice", 5), FormatResult(t2, "Bob", 9)]) == 9
  {
    BestScoreOfTwoSaves(t1, "Alice", 5, t2, "Bob", 9);
  }

  /**
   * The name is not checked for `;`: a name `first;second` pushes the score
   * out of the third field, which then holds `second`.
   */
  lemma NameWithSeparatorShiftsScore(now: string, first: string, second: string, score: int)
    requires ';' !in now && ';' !in first && ';' !in second
    ensures LineScore(FormatResult(now, first + [';'] + second, score)) == ParseInt(second)
  {
    var name := first + [';'] + second;
    SavedLineFields(now, name, score);
    SplitPrefix(first, second, ';');
    assert Split(second, ';') == [second];
    assert Split(Strip(FormatResult(now, name, score)), ';') ==
      [StripLeft(now), first, second, IntToString(score)];
  }

  /** The line saved for player "a;7" with score 1 contributes 7, not 1. */
  lemma SemicolonInNameMisreadsScore(now: string)
    requires ';' !in now
    ensures LineScore(FormatResult(now, "a;7", 1)) == Some(7)
  {
    NameWithSeparatorShiftsScore(now, "a", "7", 1);
    assert "a" + [';'] + "7" == "a;7";
    assert AllDigits("7") && DigitsValue("7") == 7;
  }
}
