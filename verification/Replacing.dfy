/**
 What replacing lines means, in terms of the characters of the text: which lines a text has, and which line breaks
 the replacement gets.
 */
module Replacing {
  import opened Bytes
  import opened ChangeSet
  import opened ChangeSetValidate
  import opened Wrappers

  // ---------- The lines of a text ----------

  /** The text ends in LF or CR. */
  ghost predicate Broken(s: string) {
    s != "" && s[|s| - 1] in {'\n', '\r'}
  }

  /** The only line break of the text, if any, is LF, CR or CR LF at its end. */
  ghost predicate BreaksOnlyAtEnd(s: string) {
    forall i {:trigger s[i]} | 0 <= i < |s| - 1 :: s[i] != '\n' && (s[i] == '\r' ==> i == |s| - 2 && s[i + 1] == '\n')
  }

  /** The line ends where the next one may begin: at a line break, and not between CR and LF. */
  ghost predicate Parted(line: string, rest: string) {
    rest != "" ==> Broken(line) && !(line[|line| - 1] == '\r' && rest[0] == '\n')
  }

  /** The text cut into its lines. */
  ghost predicate AreLines(text: string, lines: seq<string>)
    decreases |lines|
  {
    if lines == [] then text == ""
    else
      && lines[0] != "" && lines[0] <= text && BreaksOnlyAtEnd(lines[0]) && Parted(lines[0], text[|lines[0]|..])
      && AreLines(text[|lines[0]|..], lines[1..])
  }

  lemma {:induction false} FirstLine(text: string)
    requires text != ""
    ensures BreaksOnlyAtEnd(text[..LineLength(text)]) && Parted(text[..LineLength(text)], text[LineLength(text)..])
  {
    if text[0] != '\n' && text[0] != '\r' && |text| > 1 {
      FirstLine(text[1..]);
      var n := LineLength(text[1..]);
      var line, tail := text[..n + 1], text[1..][..n];
      assert line == [text[0]] + tail && text[n + 1..] == text[1..][n..];
      forall i {:trigger line[i]} | 0 <= i < |line| - 1
        ensures line[i] != '\n' && (line[i] == '\r' ==> i == |line| - 2 && line[i + 1] == '\n')
      {
        assert i > 0 ==> line[i] == tail[i - 1] && line[i + 1] == tail[i];
      }
    }
  }

  /** A shorter and a longer first line cannot both be right. */
  lemma OneFirstLine(text: string, a: nat, b: nat)
    requires 0 < a < b <= |text|
    ensures !(BreaksOnlyAtEnd(text[..b]) && Parted(text[..a], text[a..]))
  {
    var short, long, tail := text[..a], text[..b], text[a..];
    assert short[a - 1] == long[a - 1] && long[a] == tail[0];
  }

  /** `splitlines` cuts a text into its lines, and there is only one way to do that. */
  lemma {:induction false} SplitLinesIff(text: string, lines: seq<string>)
    ensures lines == SplitLines(text) <==> AreLines(text, lines)
    decreases |text|
  {
    hide BreaksOnlyAtEnd, Parted, LineLength;
    if text != "" {
      var n := LineLength(text);
      FirstLine(text);
      if lines != [] {
        if lines[0] != "" && lines[0] <= text && AreLines(text, lines) {
          assert lines[0] == text[..|lines[0]|];
          if n < |lines[0]| {
            OneFirstLine(text, n, |lines[0]|);
          } else if |lines[0]| < n {
            OneFirstLine(text, |lines[0]|, n);
          }
        }
        SplitLinesIff(text[n..], lines[1..]);
        assert lines == [lines[0]] + lines[1..];
      }
    }
  }

  // ---------- The line breaks of the replacement ----------

  /** Every line break of the text is CR LF. */
  ghost predicate AllCrLf(s: string) {
    && (forall i {:trigger s[i]} | 0 <= i < |s| && s[i] == '\n' :: i > 0 && s[i - 1] == '\r')
    && (forall i {:trigger s[i]} | 0 <= i < |s| && s[i] == '\r' :: i + 1 < |s| && s[i + 1] == '\n')
  }

  lemma {:induction false} NoCarriageReturn(text: string)
    ensures '\r' !in UnixNewlines(text)
    decreases |text|
  {
    if text != "" {
      NoCarriageReturn(text[1..]);
      if |text| > 1 {
        NoCarriageReturn(text[2..]);
      }
    }
  }

  lemma CrLfCons(c: char, s: string)
    requires c != '\n' && c != '\r' && AllCrLf(s)
    ensures AllCrLf([c] + s)
  {
    var t := [c] + s;
    assert forall i {:trigger t[i]} | 0 < i < |t| :: t[i] == s[i - 1];
  }

  lemma CrLfBreak(s: string)
    requires AllCrLf(s)
    ensures AllCrLf("\r\n" + s)
  {
    var t := "\r\n" + s;
    assert t[0] == '\r' && t[1] == '\n' && forall i {:trigger t[i]} | 1 < i < |t| :: t[i] == s[i - 2];
  }

  lemma {:induction false} Restyled(text: string)
    requires '\r' !in text
    ensures WithNewline(text, "\n") == text
    ensures UnixNewlines(WithNewline(text, "\r\n")) == text && AllCrLf(WithNewline(text, "\r\n"))
  {
    if text != "" {
      Restyled(text[1..]);
      var rest := WithNewline(text[1..], "\r\n");
      assert text == [text[0]] + text[1..];
      if text[0] == '\n' {
        CrLfBreak(rest);
        assert ("\r\n" + rest)[2..] == rest && ("\r\n" + rest)[1] == '\n';
      } else {
        CrLfCons(text[0], rest);
        assert ([text[0]] + rest)[1..] == rest;
      }
    }
  }

  lemma UnixStep(text: string)
    requires text != ""
    ensures UnixNewlines(text)
            == if text[0] != '\r' then [text[0]] + UnixNewlines(text[1..])
               else "\n" + UnixNewlines(text[if |text| > 1 && text[1] == '\n' then 2 else 1..])
  {
  }

  lemma UnixBreak(newline: string)
    requires newline in {"\n", "\r\n"}
    ensures UnixNewlines("") == "" && UnixNewlines(newline) == "\n"
  {
    UnixStep(newline);
    assert "\r\n"[2..] == "" && "\n"[1..] == "";
  }

  /** The first line break or character of the text, and what follows it. */
  lemma UnixHead(text: string, head: string, n: nat)
    requires text != "" && n == (if text[0] == '\r' && |text| > 1 && text[1] == '\n' then 2 else 1)
    requires head == if text[0] == '\r' then "\n" else [text[0]]
    ensures UnixNewlines(text) == head + UnixNewlines(text[n..])
  {
    hide UnixNewlines;
    UnixStep(text);
  }

  /** A line break appended to text that does not end in one is one more line break. */
  lemma {:induction false} Closed(raw: string, newline: string)
    requires newline in {"\n", "\r\n"} && !Broken(raw)
    ensures UnixNewlines(raw + newline) == UnixNewlines(raw) + "\n"
    decreases |raw|
  {
    hide UnixNewlines;
    if raw == "" {
      UnixBreak(newline);
      assert "" + newline == newline && "" + "\n" == "\n";
    } else {
      var n := if raw[0] == '\r' && |raw| > 1 && raw[1] == '\n' then 2 else 1;
      var head := if raw[0] == '\r' then "\n" else [raw[0]];
      UnixHead(raw, head, n);
      UnixHead(raw + newline, head, n);
      assert (raw + newline)[n..] == raw[n..] + newline;
      Closed(raw[n..], newline);
      var rest := UnixNewlines(raw[n..]);
      assert head + (rest + "\n") == head + rest + "\n";
    }
  }

  /**
   The replacement: the text of the payload, closed by a line break when it has text without one at its end and the
   last replaced line ends in one; and all its line breaks are CR LF when the file has a CR LF, and LF otherwise.
   */
  lemma ReplacementMeans(text: string, lines: seq<string>, raw: string, end: nat)
    requires 1 <= end <= |lines|
    ensures var r := Replacement(text, lines, raw, end);
            var crlf := exists i | 0 <= i < |text| - 1 :: text[i] == '\r' && text[i + 1] == '\n';
            && UnixNewlines(r)
               == UnixNewlines(raw) + (if raw != "" && !Broken(raw) && Broken(lines[end - 1]) then "\n" else "")
            && if crlf then AllCrLf(r) else '\r' !in r
  {
    hide UnixNewlines, WithNewline, AllCrLf;
    var newline := if HasCrLf(text) then "\r\n" else "\n";
    var close := raw != "" && !Broken(raw) && Broken(lines[end - 1]);
    var closed := if close then raw + newline else raw;
    assert Replacement(text, lines, raw, end) == WithNewline(UnixNewlines(closed), newline);
    if close {
      Closed(raw, newline);
    } else {
      assert UnixNewlines(raw) + "" == UnixNewlines(raw);
    }
    NoCarriageReturn(closed);
    Restyled(UnixNewlines(closed));
    Unchanged(UnixNewlines(closed));
  }

  lemma {:induction false} Unchanged(text: string)
    requires '\r' !in text
    ensures UnixNewlines(text) == text
  {
    if text != "" {
      Unchanged(text[1..]);
      assert text == [text[0]] + text[1..];
    }
  }

  // ---------- The replacement of bytes ----------

  /**
   Which replacements can be made, and what they give: the decoded text with its lines `start` to `end` replaced, in
   the encoding again.
   */
  lemma ReplaceMeans(k: Codecs, current: Bytes, o: ChangeOperation)
    requires LinesOk(o)
    ensures var result := Replace(k, current, o);
            if o.encoding.None? || o.lineMap.None? then result == Failure(ReplaceLineMapRequired)
            else
              var text := k.decode(o.encoding.value, current);
              var payload := if o.contentB64.None? then Some([]) else k.unb64(o.contentB64.value);
              if text.None? || payload.None? || k.decode(o.encoding.value, payload.value).None? then
                result == Failure(EncodingMismatch)
              else
                var lines, raw := SplitLines(text.value), k.decode(o.encoding.value, payload.value).value;
                var start, end := o.lineMap.value.start, o.lineMap.value.end;
                if |lines| < end then result == Failure(LineMapOutOfRange)
                else
                  result == Success(k.encode(o.encoding.value,
                                             Join(lines[..start - 1]) + Replacement(text.value, lines, raw, end)
                                             + Join(lines[end..])))
  {
    hide SplitLines, Replacement, Join;
    if o.encoding.Some? && o.lineMap.Some? {
      var text := k.decode(o.encoding.value, current);
      var payload := if o.contentB64.None? then Some([]) else k.unb64(o.contentB64.value);
      if text.Some? && payload.Some? && k.decode(o.encoding.value, payload.value).Some? {
        var raw := k.decode(o.encoding.value, payload.value).value;
        if ReplacedText(o, text.value, raw).Success? {
          ReplaceKeepsTheRest(o, text.value, raw);
        }
      }
    }
  }
}
