/** Printing a command so that it can be pasted into a POSIX shell. */
module ShellQuoting {
  import opened Bytes

  // ----- Printing -----

  /** The characters `[\w./:@=+-]` matches. */
  predicate IsPlain(c: char) {
    'a' <= c <= 'z' || 'A' <= c <= 'Z' || '0' <= c <= '9' || c in "_./:@=+-"
  }

  predicate AllPlain(value: string) {
    value != "" && forall i :: 0 <= i < |value| ==> IsPlain(value[i])
  }

  /** Every single quote replaced by: end the quotes, a double-quoted single quote, quote again. */
  function Escaped(value: string): string {
    if value == "" then ""
    else (if value[0] == '\'' then "'\"'\"'" else value[..1]) + Escaped(value[1..])
  }

  function QuoteShellArgument(value: string): string {
    if AllPlain(value) then value else "'" + Escaped(value) + "'"
  }

  function Joined(values: seq<string>): string {
    if values == [] then ""
    else if |values| == 1 then QuoteShellArgument(values[0])
    else QuoteShellArgument(values[0]) + " " + Joined(values[1..])
  }

  function FormatCopyableCommand(command: string, args: seq<string>): string {
    Joined([command] + args)
  }

  // ----- Reading, by sections 2.2 and 2.3 of the POSIX Shell Command Language -----

  datatype Quoting = Unquoted | SingleQuotes | DoubleQuotes

  /** The words recognised so far, the word being read, if any, and the quoting in force. */
  datatype Reading = Reading(words: seq<string>, word: Option<string>, quoting: Quoting) {
    function With(text: string): Reading {
      this.(word := Some((if word.Some? then word.value else "") + text))
    }
  }

  /** Unquoted, these form operators, start expansions, patterns or comments, or end the command. */
  predicate IsSpecial(c: char) {
    c in "|&;<>()$`*?[]#~{}!^%\n"
  }

  /** Reads `s` on; none when it would be more than a list of words or ends inside quotes. */
  function Read(s: string, r: Reading): Option<seq<string>>
    decreases |s|
  {
    if s == "" then
      if r.quoting != Unquoted then None
      else Some(if r.word.Some? then r.words + [r.word.value] else r.words)
    else
      var c, rest := s[0], s[1..];
      match r.quoting
      case Unquoted =>
        if c == '\'' then Read(rest, r.With("").(quoting := SingleQuotes))
        else if c == '"' then Read(rest, r.With("").(quoting := DoubleQuotes))
        else if c == ' ' || c == '\t' then
          Read(rest, if r.word.Some? then Reading(r.words + [r.word.value], None, Unquoted) else r)
        else if c == '\\' then
          (if rest == "" then None
           else if rest[0] == '\n' then Read(rest[1..], r)
           else Read(rest[1..], r.With([rest[0]])))
        else if IsSpecial(c) then None
        else Read(rest, r.With([c]))
      case SingleQuotes =>
        if c == '\'' then Read(rest, r.(quoting := Unquoted)) else Read(rest, r.With([c]))
      case DoubleQuotes =>
        if c == '"' then Read(rest, r.(quoting := Unquoted))
        else if c == '$' || c == '`' then None
        else if c == '\\' && rest != "" && rest[0] in "$`\"\\\n" then
          Read(rest[1..], if rest[0] == '\n' then r else r.With([rest[0]]))
        else Read(rest, r.With([c]))
  }

  function Split(s: string): Option<seq<string>> {
    Read(s, Reading([], None, Unquoted))
  }

  // ----- The round trip -----

  lemma PlainIsOrdinary(c: char)
    requires IsPlain(c)
    ensures c != '\'' && c != '"' && c != ' ' && c != '\t' && c != '\\' && !IsSpecial(c)
  {
  }

  /** One unquoted or single-quoted character, and the three marks an argument is printed with. */
  lemma ReadOne(c: char, rest: string, r: Reading)
    ensures r.quoting == Unquoted && IsPlain(c) ==> Read([c] + rest, r) == Read(rest, r.With([c]))
    ensures r.quoting == SingleQuotes && c != '\'' ==> Read([c] + rest, r) == Read(rest, r.With([c]))
    ensures r.quoting == Unquoted ==> Read("'" + rest, r) == Read(rest, r.With("").(quoting := SingleQuotes))
    ensures r.quoting == SingleQuotes ==> Read("'" + rest, r) == Read(rest, r.(quoting := Unquoted))
    ensures r.quoting == Unquoted && r.word.Some? ==>
              Read(" " + rest, r) == Read(rest, Reading(r.words + [r.word.value], None, Unquoted))
  {
    if IsPlain(c) {
      PlainIsOrdinary(c);
    }
    assert ([c] + rest)[1..] == rest && ("'" + rest)[1..] == rest && (" " + rest)[1..] == rest;
  }

  lemma {:induction false} ReadPlain(value: string, rest: string, r: Reading)
    requires r.quoting == Unquoted && forall i :: 0 <= i < |value| ==> IsPlain(value[i])
    ensures value != "" ==> Read(value + rest, r) == Read(rest, r.With(value))
    decreases |value|
  {
    hide Read, IsPlain;
    if value != "" {
      ReadOne(value[0], value[1..] + rest, r);
      assert value + rest == [value[0]] + (value[1..] + rest);
      ReadPlain(value[1..], rest, r.With([value[0]]));
      WithBoth(r, value[..1], value[1..]);
      assert value[..1] + value[1..] == value && value[..1] == [value[0]];
      if |value| == 1 {
        assert value[1..] + rest == rest && value == [value[0]];
      }
    }
  }

  lemma WithBoth(r: Reading, s: string, t: string)
    ensures r.With(s).With(t) == r.With(s + t)
  {
    if r.word.Some? {
      assert r.word.value + s + t == r.word.value + (s + t);
    } else {
      assert "" + s + t == "" + (s + t);
    }
  }

  /** A single quote leaves the quotes, is read in double quotes, and enters the quotes again. */
  lemma ReadQuote(rest: string, r: Reading)
    requires r.quoting == SingleQuotes && r.word.Some?
    ensures Read("'\"'\"'" + rest, r) == Read(rest, r.With("'"))
  {
    var s := "'\"'\"'" + rest;
    var unquoted, doubled := r.(quoting := Unquoted), r.(quoting := DoubleQuotes);
    assert s[1..] == "\"'\"'" + rest && s[1..][1..] == "'\"'" + rest;
    assert s[1..][1..][1..] == "\"'" + rest && s[1..][1..][1..][1..] == "'" + rest;
    assert Read(s, r) == Read("\"'\"'" + rest, unquoted);
    assert unquoted.With("").(quoting := DoubleQuotes) == doubled by { assert r.word.value + "" == r.word.value; }
    assert Read("\"'\"'" + rest, unquoted) == Read("'\"'" + rest, doubled);
    assert Read("'\"'" + rest, doubled) == Read("\"'" + rest, doubled.With("'"));
    assert Read("\"'" + rest, doubled.With("'")) == Read("'" + rest, unquoted.With("'"));
    ReadOne(' ', rest, unquoted.With("'"));
    WithBoth(unquoted, "'", "");
    assert "'" + "" == "'";
  }

  lemma {:induction false} ReadEscaped(value: string, rest: string, r: Reading)
    requires r.quoting == SingleQuotes && r.word.Some?
    ensures Read(Escaped(value) + "'" + rest, r) == Read(rest, r.With(value).(quoting := Unquoted))
    decreases |value|
  {
    hide Read;
    var end := "'" + rest;
    assert Escaped(value) + "'" + rest == Escaped(value) + end;
    if value == "" {
      assert Escaped(value) + end == end && r.word.value + "" == r.word.value;
      ReadOne(' ', rest, r);
    } else {
      var c, more := value[0], value[1..];
      assert value == [c] + more;
      if c == '\'' {
        assert Escaped(value) + end == "'\"'\"'" + (Escaped(more) + end);
        ReadQuote(Escaped(more) + end, r);
      } else {
        assert Escaped(value) + end == [c] + (Escaped(more) + end);
        ReadOne(c, Escaped(more) + end, r);
      }
      assert Escaped(more) + "'" + rest == Escaped(more) + end;
      ReadEscaped(more, rest, r.With([c]));
      WithBoth(r, [c], more);
    }
  }

  lemma {:induction false} EscapedIsLonger(value: string)
    ensures |Escaped(value)| >= |value|
    decreases |value|
  {
    if value != "" {
      EscapedIsLonger(value[1..]);
    }
  }

  /** A word is printed as it is exactly when it is not empty and all its characters are plain; else in single quotes. */
  lemma QuotedExactly(value: string)
    ensures QuoteShellArgument(value) == value <==> value != "" && forall c :: c in value ==> IsPlain(c)
    ensures QuoteShellArgument(value) != value ==>
              var printed := QuoteShellArgument(value);
              |printed| >= 2 && printed[0] == '\'' && printed[|printed| - 1] == '\''
  {
    hide IsPlain, Escaped;
    EscapedIsLonger(value);
    assert AllPlain(value) <==> value != "" && forall c :: c in value ==> IsPlain(c);
  }

  lemma ReadArgument(value: string, rest: string, words: seq<string>)
    ensures Read(QuoteShellArgument(value) + rest, Reading(words, None, Unquoted))
         == Read(rest, Reading(words, Some(value), Unquoted))
  {
    hide Read, Escaped;
    var r := Reading(words, None, Unquoted);
    assert "" + value == value && "" + "" == "";
    if AllPlain(value) {
      ReadPlain(value, rest, r);
    } else {
      assert QuoteShellArgument(value) + rest == "'" + (Escaped(value) + "'" + rest);
      ReadOne(' ', Escaped(value) + "'" + rest, r);
      ReadEscaped(value, rest, r.With("").(quoting := SingleQuotes));
      WithBoth(r.(quoting := SingleQuotes), "", value);
    }
  }

  lemma {:induction false} ReadJoined(values: seq<string>, words: seq<string>)
    requires values != []
    ensures Read(Joined(values), Reading(words, None, Unquoted)) == Some(words + values)
    decreases |values|
  {
    hide QuoteShellArgument;
    if |values| == 1 {
      assert QuoteShellArgument(values[0]) + "" == QuoteShellArgument(values[0]) && values == [values[0]];
      ReadArgument(values[0], "", words);
    } else {
      var rest := " " + Joined(values[1..]);
      assert Joined(values) == QuoteShellArgument(values[0]) + rest;
      ReadArgument(values[0], rest, words);
      ReadOne(' ', Joined(values[1..]), Reading(words, Some(values[0]), Unquoted));
      ReadJoined(values[1..], words + [values[0]]);
      assert words + [values[0]] + values[1..] == words + values;
    }
  }

  /** A shell reads a printed command back as exactly the command and its arguments. */
  lemma SplitFormatted(command: string, args: seq<string>)
    ensures Split(FormatCopyableCommand(command, args)) == Some([command] + args)
  {
    ReadJoined([command] + args, []);
    assert [] + ([command] + args) == [command] + args;
  }

  /** So two different commands are never printed alike. */
  lemma FormattingIsInjective(command: string, args: seq<string>, command': string, args': seq<string>)
    requires FormatCopyableCommand(command, args) == FormatCopyableCommand(command', args')
    ensures command == command' && args == args'
  {
    SplitFormatted(command, args);
    SplitFormatted(command', args');
    assert ([command] + args)[1..] == args && ([command'] + args')[1..] == args';
    assert ([command] + args)[0] == command && ([command'] + args')[0] == command';
  }
}
