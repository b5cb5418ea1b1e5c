/** The greedy line breaking that both card renderers use (Go's `wrapTextRTL`
    and the browser's `wrapText` run the same loop; they differ only in how
    they cut the text into words). Text width is an arbitrary function: no
    monotonicity or additivity is assumed. */
module Wrapping {
  import opened Common

  /** Lines joined with single spaces. */
  function JoinLines(ws: seq<string>): string { Join(ws, ' ') }

  /** What the loop produces from the words still to place, the lines already
      emitted, and the line being built (`cur` / `currentLine`). A word is
      tried on the end of the current line; the line is emitted and the word
      starts a new one only when the trial line is wider than `maxWidth` AND
      the current line is not empty. */
  function WrapFrom(measure: string -> real, maxWidth: real, words: seq<string>,
                    lines: seq<string>, cur: string): seq<string>
    decreases |words|
  {
    if words == [] then
      if cur != "" then lines + [cur] else lines
    else
      var test := if cur != "" then cur + " " + words[0] else words[0];
      if measure(test) > maxWidth && cur != "" then
        WrapFrom(measure, maxWidth, words[1..], lines + [cur], words[0])
      else
        WrapFrom(measure, maxWidth, words[1..], lines, test)
  }

  /** The lines the loop emits for `words`, starting with no lines and an
      empty current line. */
  function Wrap(measure: string -> real, maxWidth: real, words: seq<string>): seq<string>
  {
    WrapFrom(measure, maxWidth, words, [], "")
  }

  // ---------------------------------------------------------------------------
  // Properties
  // ---------------------------------------------------------------------------

  /** No emitted line is empty. */
  lemma {:induction false} NoEmptyLine(measure: string -> real, maxWidth: real, words: seq<string>,
                                       lines: seq<string>, cur: string)
    requires forall l :: l in lines ==> l != ""
    ensures forall l :: l in WrapFrom(measure, maxWidth, words, lines, cur) ==> l != ""
    decreases |words|
  {
    if words != [] {
      var test := if cur != "" then cur + " " + words[0] else words[0];
      if measure(test) > maxWidth && cur != "" {
        NoEmptyLine(measure, maxWidth, words[1..], lines + [cur], words[0]);
      } else {
        NoEmptyLine(measure, maxWidth, words[1..], lines, test);
      }
    }
  }

  /** Every line either fits in `maxWidth` or is one of the words, alone. */
  lemma {:induction false} WideLinesAreWords(measure: string -> real, maxWidth: real, all: seq<string>,
                                             words: seq<string>, lines: seq<string>, cur: string)
    requires forall w :: w in words ==> w in all
    requires forall l :: l in lines ==> measure(l) <= maxWidth || l in all
    requires cur == "" || measure(cur) <= maxWidth || cur in all
    ensures forall l :: l in WrapFrom(measure, maxWidth, words, lines, cur) ==> measure(l) <= maxWidth || l in all
    decreases |words|
  {
    if words != [] {
      assert words[0] in words;
      var test := if cur != "" then cur + " " + words[0] else words[0];
      if measure(test) > maxWidth && cur != "" {
        WideLinesAreWords(measure, maxWidth, all, words[1..], lines + [cur], words[0]);
      } else {
        WideLinesAreWords(measure, maxWidth, all, words[1..], lines, test);
      }
    }
  }

  /** Trying a word with a space in front and breaking before it give the
      same text once the lines are joined with spaces. */
  lemma {:induction false} JoinMerge(front: seq<string>, x: string, y: string, back: seq<string>)
    ensures JoinLines(front + [x + " " + y] + back) == JoinLines(front + [x, y] + back)
    decreases |front|
  {
    if front == [] {
      assert front + [x + " " + y] + back == [x + " " + y] + back;
      assert front + [x, y] + back == [x, y] + back;
      assert ([x, y] + back)[1..] == [y] + back;
      if back == [] {
        assert [x + " " + y] + back == [x + " " + y] && [x, y] + back == [x, y];
        assert [x, y][1..] == [y];
        assert Join([y], ' ') == y;
        assert Join([x, y], ' ') == x + [' '] + Join([y], ' ');
        assert Join([x + " " + y], ' ') == x + " " + y;
        assert x + [' '] + y == x + " " + y;
      } else {
        var rest := Join(back, ' ');
        assert ([x + " " + y] + back)[1..] == back;
        assert ([y] + back)[1..] == back;
        assert Join([y] + back, ' ') == y + [' '] + rest;
        assert Join([x, y] + back, ' ') == x + [' '] + Join([y] + back, ' ');
        assert Join([x + " " + y] + back, ' ') == (x + " " + y) + [' '] + rest;
        assert x + [' '] + (y + [' '] + rest) == (x + " " + y) + [' '] + rest;
      }
    } else {
      JoinMerge(front[1..], x, y, back);
      assert (front + [x + " " + y] + back)[1..] == front[1..] + [x + " " + y] + back;
      assert (front + [x, y] + back)[1..] == front[1..] + [x, y] + back;
    }
  }

  /** When no word is empty, joining the lines with spaces gives the words
      joined with spaces: nothing is lost, reordered or duplicated. The
      current line is empty only before the first word. */
  lemma {:induction false} WrapKeepsText(measure: string -> real, maxWidth: real, words: seq<string>,
                                         lines: seq<string>, cur: string)
    requires forall w :: w in words ==> w != ""
    requires cur != "" || lines == []
    ensures JoinLines(WrapFrom(measure, maxWidth, words, lines, cur)) ==
            JoinLines(lines + (if cur != "" then [cur] else []) + words)
    decreases |words|, 1
  {
    if words == [] {
      var head := if cur != "" then [cur] else [];
      assert lines + head + words == lines + head;
    } else {
      var test := if cur != "" then cur + " " + words[0] else words[0];
      if measure(test) > maxWidth && cur != "" {
        BreakKeepsText(measure, maxWidth, words, lines, cur);
      } else if cur != "" {
        ExtendKeepsText(measure, maxWidth, words, lines, cur);
      } else {
        StartKeepsText(measure, maxWidth, words, lines);
      }
    }
  }

  /** The rest of a non-empty word list has no empty word either. */
  lemma RestNonEmpty(words: seq<string>)
    requires words != [] && forall w :: w in words ==> w != ""
    ensures words[0] != "" && forall v :: v in words[1..] ==> v != ""
  {
    assert words[0] in words;
    forall v | v in words[1..] ensures v != "" {
      assert v in words;
    }
  }

  /** The current line is emitted and the next word starts a new one. */
  lemma {:induction false} BreakKeepsText(measure: string -> real, maxWidth: real, words: seq<string>,
                                          lines: seq<string>, cur: string)
    requires words != [] && forall w :: w in words ==> w != ""
    requires cur != "" && measure(cur + " " + words[0]) > maxWidth
    ensures JoinLines(WrapFrom(measure, maxWidth, words, lines, cur)) == JoinLines(lines + [cur] + words)
    decreases |words|, 0
  {
    RestNonEmpty(words);
    var w, rest := words[0], words[1..];
    WrapKeepsText(measure, maxWidth, rest, lines + [cur], w);
    assert lines + [cur] + [w] + rest == lines + [cur] + words;
  }

  /** The next word is added to the current line after a space. */
  lemma {:induction false} ExtendKeepsText(measure: string -> real, maxWidth: real, words: seq<string>,
                                           lines: seq<string>, cur: string)
    requires words != [] && forall w :: w in words ==> w != ""
    requires cur != "" && !(measure(cur + " " + words[0]) > maxWidth)
    ensures JoinLines(WrapFrom(measure, maxWidth, words, lines, cur)) == JoinLines(lines + [cur] + words)
    decreases |words|, 0
  {
    RestNonEmpty(words);
    var w, rest := words[0], words[1..];
    WrapKeepsText(measure, maxWidth, rest, lines, cur + " " + w);
    JoinMerge(lines, cur, w, rest);
    assert lines + [cur, w] + rest == lines + [cur] + words;
  }

  /** The first word starts the first line. */
  lemma {:induction false} StartKeepsText(measure: string -> real, maxWidth: real, words: seq<string>,
                                          lines: seq<string>)
    requires words != [] && forall w :: w in words ==> w != ""
    requires lines == []
    ensures JoinLines(WrapFrom(measure, maxWidth, words, lines, "")) == JoinLines(lines + words)
    decreases |words|, 0
  {
    RestNonEmpty(words);
    var w, rest := words[0], words[1..];
    WrapKeepsText(measure, maxWidth, rest, lines, w);
    assert lines + [w] + rest == lines + words;
  }

  /** The properties of a finished wrap, from an empty start. */
  lemma WrapProperties(measure: string -> real, maxWidth: real, words: seq<string>)
    ensures forall l :: l in Wrap(measure, maxWidth, words) ==> l != ""
    ensures forall l :: l in Wrap(measure, maxWidth, words) ==> measure(l) <= maxWidth || l in words
    ensures (forall w :: w in words ==> w != "") ==> JoinLines(Wrap(measure, maxWidth, words)) == JoinLines(words)
  {
    NoEmptyLine(measure, maxWidth, words, [], "");
    WideLinesAreWords(measure, maxWidth, words, words, [], "");
    if forall w :: w in words ==> w != "" {
      WrapKeepsText(measure, maxWidth, words, [], "");
      assert [] + [] + words == words;
    }
  }

  /** If every word fits on its own, every line fits. */
  lemma FittingWordsFittingLines(measure: string -> real, maxWidth: real, words: seq<string>)
    requires forall w :: w in words ==> measure(w) <= maxWidth
    ensures forall l :: l in Wrap(measure, maxWidth, words) ==> measure(l) <= maxWidth
  {
    WrapProperties(measure, maxWidth, words);
  }
}
