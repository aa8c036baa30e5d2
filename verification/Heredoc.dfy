/** The here-document that carries the bootstrap config inside the enrolment script. */
module Heredoc {
  import opened Common
  import opened Text

  const DELIMITER := "BRANCHLEFT_CONFIG_EOF"
  const MAX_CONFIG_CHARS := 16_384

  /** The text checks of `assertConfig`: bounded printable ASCII that ends its last line and never closes the document. */
  predicate AcceptableText(config: string) {
    && 0 < |config| <= MAX_CONFIG_CHARS
    && (forall k :: 0 <= k < |config| ==> ' ' <= config[k] <= '~' || config[k] == '\n')
    && config[|config| - 1] == '\n'
    && DELIMITER !in Split(config, '\n')
  }

  /** What a shell takes as the body of a here-document: the lines up to the delimiter, and the lines after it. */
  function ReadBody(lines: seq<string>): Option<(string, seq<string>)> {
    if lines == [] then None
    else if lines[0] == DELIMITER then Some(("", lines[1..]))
    else
      var rest := ReadBody(lines[1..]);
      if rest.None? then None else Some((lines[0] + "\n" + rest.value.0, rest.value.1))
  }

  lemma {:induction false} SplitAtSeparator(s: string, t: string, sep: char)
    ensures Split(s + [sep] + t, sep) == Split(s, sep) + Split(t, sep)
  {
    var whole := s + [sep] + t;
    if s == "" {
      assert whole[1..] == t;
      assert [""] + Split(t, sep) == Split(s, sep) + Split(t, sep);
    } else {
      assert whole[1..] == s[1..] + [sep] + t;
      SplitAtSeparator(s[1..], t, sep);
    }
  }

  lemma {:induction false} BodyOfLines(lines: seq<string>, after: seq<string>)
    requires |lines| >= 1 && DELIMITER !in lines
    ensures ReadBody(lines + [DELIMITER] + after) == Some((Join(lines, '\n') + "\n", after))
  {
    var all := lines + [DELIMITER] + after;
    assert lines[0] in lines;
    if |lines| == 1 {
      assert all[1..] == [DELIMITER] + after;
      assert ([DELIMITER] + after)[1..] == after;
      assert lines[0] + "\n" + "" == Join(lines, '\n') + "\n";
    } else {
      assert all[1..] == lines[1..] + [DELIMITER] + after;
      assert forall l :: l in lines[1..] ==> l in lines;
      BodyOfLines(lines[1..], after);
      assert lines[0] + "\n" + (Join(lines[1..], '\n') + "\n") == Join(lines, '\n') + "\n";
    }
  }

  lemma {:induction false} BodyStopsAtDelimiter(lines: seq<string>, more: seq<string>)
    requires DELIMITER in lines
    ensures ReadBody(lines + more).Some? && |ReadBody(lines + more).value.0| <= |Flat(lines)| - |DELIMITER| - 1
  {
    var all := lines + more;
    assert all[0] == lines[0];
    if lines[0] != DELIMITER {
      assert all[1..] == lines[1..] + more;
      BodyStopsAtDelimiter(lines[1..], more);
    }
  }

  function Flat(lines: seq<string>): string {
    if lines == [] then "" else lines[0] + "\n" + Flat(lines[1..])
  }

  lemma {:induction false} FlatIsJoined(lines: seq<string>)
    requires |lines| >= 1
    ensures Flat(lines) == Join(lines, '\n') + "\n"
  {
    if |lines| > 1 {
      FlatIsJoined(lines[1..]);
    } else {
      assert Flat(lines[1..]) == "";
    }
  }

  lemma LastLineEnded(text: string)
    ensures Split(text + "\n", '\n') == Split(text, '\n') + [""]
  {
    SplitJoin([""], '\n');
    hide Split;
    SplitAtSeparator(text, "", '\n');
    assert text + ['\n'] + "" == text + "\n";
  }

  lemma LineIsItself(mark: string)
    requires '\n' !in mark
    ensures Split(mark, '\n') == [mark]
  {
    SplitJoin([mark], '\n');
  }

  /** The lines of text with a line `mark` after it. */
  lemma LinesAround(text: string, mark: string, after: string)
    requires '\n' !in mark
    ensures Split(text + "\n" + mark + "\n" + after, '\n') == Split(text, '\n') + [mark] + Split(after, '\n')
  {
    hide Split;
    LineIsItself(mark);
    var rest := mark + ['\n'] + after;
    SplitAtSeparator(text, rest, '\n');
    SplitAtSeparator(mark, after, '\n');
    assert text + "\n" + mark + "\n" + after == text + ['\n'] + rest;
    assert Split(text, '\n') + ([mark] + Split(after, '\n')) == Split(text, '\n') + [mark] + Split(after, '\n');
  }

  /**
   Reading the here-document back gives exactly the config, and the script goes on at the next line, if and only if
   no line of the config is the delimiter.
   */
  lemma HeredocRoundTrip(config: string, after: string)
    requires config != "" && config[|config| - 1] == '\n'
    ensures ReadBody(Split(config + DELIMITER + "\n" + after, '\n')) == Some((config, Split(after, '\n')))
            <==> DELIMITER !in Split(config, '\n')
  {
    hide Split, ReadBody, Join, Flat;
    var text := config[..|config| - 1];
    assert text + "\n" == config;
    var lines := Split(text, '\n');
    LastLineEnded(text);
    LinesAround(text, DELIMITER, after);
    JoinSplit(text, '\n');
    if DELIMITER in lines {
      BodyStopsAtDelimiter(lines, [DELIMITER] + Split(after, '\n'));
      FlatIsJoined(lines);
      assert lines + ([DELIMITER] + Split(after, '\n')) == lines + [DELIMITER] + Split(after, '\n');
    } else {
      BodyOfLines(lines, Split(after, '\n'));
    }
  }

  /** Every config `assertConfig` accepts is read back as it was. */
  lemma AcceptedConfigIsReadBack(config: string, after: string)
    requires AcceptableText(config)
    ensures ReadBody(Split(config + DELIMITER + "\n" + after, '\n')) == Some((config, Split(after, '\n')))
  {
    HeredocRoundTrip(config, after);
  }

  // ---- Which configurations are accepted ----

  /** The text holds the line at place `i`: it begins the text or follows a newline, and ends the text or is followed by one. */
  predicate LineAt(s: string, line: string, i: nat) {
    && i + |line| <= |s| && s[i..i + |line|] == line
    && (i == 0 || s[i - 1] == '\n')
    && (i + |line| == |s| || s[i + |line|] == '\n')
  }

  lemma {:induction false} LineOfJoined(lines: seq<string>, k: nat) returns (i: nat)
    requires k < |lines|
    ensures LineAt(Join(lines, '\n'), lines[k], i)
    ensures k > 0 ==> i > 0
  {
    var s := Join(lines, '\n');
    if k == 0 {
      i := 0;
    } else {
      var rest := Join(lines[1..], '\n');
      var j := LineOfJoined(lines[1..], k - 1);
      var skipped := |lines[0]| + 1;
      assert s == lines[0] + ['\n'] + rest;
      assert s[skipped..] == rest && s[skipped - 1] == '\n';
      i := skipped + j;
      assert s[i..i + |lines[k]|] == rest[j..j + |lines[k]|];
    }
  }

  lemma LineIsSplit(s: string, line: string, i: nat)
    requires '\n' !in line && LineAt(s, line, i)
    ensures line in Split(s, '\n')
  {
    hide Split;
    var end := i + |line|;
    LineIsItself(line);
    var tail := s[i..];
    if end == |s| {
      assert tail == line;
    } else {
      var after := s[end + 1..];
      assert tail == line + ['\n'] + after;
      SplitAtSeparator(line, after, '\n');
    }
    assert line in Split(tail, '\n');
    if i > 0 {
      assert s == s[..i - 1] + ['\n'] + tail;
      SplitAtSeparator(s[..i - 1], tail, '\n');
    }  else {
      assert s == tail;
    }
  }

  /** A configuration's text is accepted exactly when it is at most 16384 printable characters and newlines, ends in one, and nowhere has the line that closes it. */
  lemma AcceptableTextIsExact(config: string)
    ensures AcceptableText(config) <==>
            && 1 <= |config| <= 16 * 1024
            && (forall k :: 0 <= k < |config| ==> config[k] as int == 10 || 32 <= config[k] as int <= 126)
            && config[|config| - 1] == '\n'
            && forall i :: 0 <= i < |config| ==> !LineAt(config, "BRANCHLEFT_CONFIG_EOF", i)
  {
    hide Split;
    JoinSplit(config, '\n');
    var lines := Split(config, '\n');
    if k :| 0 <= k < |lines| && lines[k] == DELIMITER {
      var i := LineOfJoined(lines, k);
      assert LineAt(config, DELIMITER, i);
    }
    if i :| 0 <= i < |config| && LineAt(config, "BRANCHLEFT_CONFIG_EOF", i) {
      LineIsSplit(config, "BRANCHLEFT_CONFIG_EOF", i);
    }
  }
}
