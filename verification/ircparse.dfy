/**
 The line tokenizer of irc_parse: an optional `:prefix`, a command, then
 parameters separated by single spaces, the last of which may start with
 ':' and then runs to the end of the line (the message format of section
 2.3.1 of RFC 1459). The line is read as a C string, so it ends at its
 first NUL.
 */
module IrcParse {
  import opened Buffers

  /** What irc_parse returns: prefix (nil when absent), command (nil when
      nothing is left) and the parameter table, in order. */
  datatype IrcMessage = IrcMessage(prefix: Option<string>, command: Option<string>, params: seq<string>)

  /** `strchr(s, ' ')`: the index of the first space, if any. */
  function FindSpace(s: string): (r: Option<nat>)
    ensures r.Some? ==> r.value < |s| && s[r.value] == ' ' && ' ' !in s[..r.value]
    ensures r.None? ==> ' ' !in s
  {
    if |s| == 0 then None
    else if s[0] == ' ' then Some(0)
    else
      match FindSpace(s[1..])
      case None => None
      case Some(i) =>
        assert s[..i + 1] == [s[0]] + s[1..][..i];
        Some(i + 1)
  }

  /** The text before the first space and the text after it; the whole of
      `s` and nothing when there is no space. */
  function Token(s: string): (r: (string, string))
    ensures ' ' !in r.0
    ensures s == r.0 || s == r.0 + " " + r.1
    ensures s == r.0 ==> r.1 == []
    ensures |r.1| < |s| || s == []
  {
    match FindSpace(s)
    case Some(i) =>
      assert s == s[..i] + " " + s[i + 1..];
      (s[..i], s[i + 1..])
    case None => (s, [])
  }

  /** The parameter loop: a token starting with ':' takes the rest of the
      line without its colon; otherwise the token ends at the next space. */
  function ParseParams(s: string): (ps: seq<string>)
    ensures |s| == 0 <==> ps == []
    decreases |s|
  {
    if |s| == 0 then []
    else if s[0] == ':' then [s[1..]]
    else
      var (tok, rest) := Token(s);
      [tok] + ParseParams(rest)
  }

  /** The prefix step: after a leading ':' the text up to the first space
      (or all of it) is the prefix. */
  function SplitPrefix(s: string): (r: (Option<string>, string))
    ensures r.0.Some? <==> |s| > 0 && s[0] == ':'
    ensures r.0.Some? ==> ' ' !in r.0.value
    ensures r.0.Some? ==> (s == ":" + r.0.value && r.1 == []) || s == ":" + r.0.value + " " + r.1
    ensures r.0.None? ==> r.1 == s
  {
    if |s| > 0 && s[0] == ':' then
      var (p, rest) := Token(s[1..]);
      (Some(p), rest)
    else (None, s)
  }

  /** The command step: the text up to the first space; nil only when
      nothing is left. */
  function SplitCommand(s: string): (r: (Option<string>, string))
    ensures r.0.None? <==> s == []
    ensures r.0.None? ==> r.1 == []
    ensures r.0.Some? ==> ' ' !in r.0.value
    ensures r.0.Some? ==> (s == r.0.value && r.1 == []) || s == r.0.value + " " + r.1
  {
    if |s| == 0 then (None, [])
    else
      var (tok, rest) := Token(s);
      (Some(tok), rest)
  }

  /** `t` is the text of `c` from index `at` up to the next space or the end. */
  predicate TokenAt(c: string, at: nat, t: string)
  {
    ' ' !in t && at + |t| <= |c| && c[at..at + |t|] == t && (at + |t| == |c| || c[at + |t|] == ' ')
  }

  /** Where the command starts in a line that parsed to `m`: after the
      prefix, its ':' and the space that ends it. */
  function CommandStart(m: IrcMessage): nat
  {
    if m.prefix.Some? then |m.prefix.value| + 2 else 0
  }

  /** The three steps of irc_parse on the text of a line. */
  function Assemble(c: string): IrcMessage
  {
    var (prefix, afterPrefix) := SplitPrefix(c);
    var (command, afterCommand) := SplitCommand(afterPrefix);
    IrcMessage(prefix, command, ParseParams(afterCommand))
  }

  /** Where each piece of the message sits in the text it was cut from. */
  predicate Layout(c: string, m: IrcMessage)
  {
    && (m.prefix.Some? ==> TokenAt(c, 1, m.prefix.value))
    && (m.command.None? <==> |c| <= CommandStart(m))
    && (m.command.Some? ==> TokenAt(c, CommandStart(m), m.command.value))
    && m.params == (
      if m.command.Some? && CommandStart(m) + |m.command.value| < |c|
      then ParseParams(c[CommandStart(m) + |m.command.value| + 1..])
      else [])
  }

  /** The prefix step leaves the text from where the command starts. */
  lemma PrefixCut(c: string)
    ensures var (prefix, ap) := SplitPrefix(c);
      var k := if prefix.Some? then |prefix.value| + 2 else 0;
      && (prefix.Some? ==> TokenAt(c, 1, prefix.value))
      && ((k <= |c| && ap == c[k..]) || (k == |c| + 1 && ap == []))
  {
    var (prefix, ap) := SplitPrefix(c);
    if prefix.Some? {
      var p := prefix.value;
      if c == ":" + p && ap == [] {
        assert c[1..1 + |p|] == p;
      } else {
        assert c == ":" + p + " " + ap;
        assert c[1..1 + |p|] == p;
        assert c[1 + |p|] == ' ';
        assert c[|p| + 2..] == ap;
      }
    }
  }

  /** The command step on the text from index `k` of `c`. */
  lemma CommandCut(c: string, k: nat, ap: string)
    requires k <= |c| && ap == c[k..]
    ensures var (command, ac) := SplitCommand(ap);
      && (command.None? <==> |c| <= k)
      && (command.None? ==> ac == [])
      && (command.Some? ==> TokenAt(c, k, command.value))
      && (command.Some? ==>
            ac == if k + |command.value| < |c| then c[k + |command.value| + 1..] else [])
  {
    var (command, ac) := SplitCommand(ap);
    if command.Some? {
      var cmd := command.value;
      if ap == cmd && ac == [] {
        assert c[k..k + |cmd|] == cmd;
      } else {
        assert ap == cmd + " " + ac;
        assert c[k..k + |cmd|] == ap[..|cmd|] == cmd;
        assert c[k + |cmd|] == ap[|cmd|] == ' ';
        assert c[k + |cmd| + 1..] == ap[|cmd| + 1..] == ac;
      }
    }
  }

  /** Layout from the cuts: the pieces sit where the cuts say, and the
      parameters come from the text after the command. */
  lemma LayoutOfCuts(c: string, m: IrcMessage, ac: string)
    requires m.params == ParseParams(ac)
    requires m.prefix.Some? ==> TokenAt(c, 1, m.prefix.value)
    requires m.command.None? <==> |c| <= CommandStart(m)
    requires m.command.Some? ==> TokenAt(c, CommandStart(m), m.command.value)
    requires ac == (
      if m.command.Some? && CommandStart(m) + |m.command.value| < |c|
      then c[CommandStart(m) + |m.command.value| + 1..]
      else [])
    ensures Layout(c, m)
  {
    if !(m.command.Some? && CommandStart(m) + |m.command.value| < |c|) {
      assert ParseParams(ac) == [];
    }
  }

  lemma AssembleLayout(c: string)
    ensures Layout(c, Assemble(c))
  {
    PrefixCut(c);
    var ap := SplitPrefix(c).1;
    var m := Assemble(c);
    var ac := SplitCommand(ap).1;
    assert m.command == SplitCommand(ap).0;
    assert m.params == ParseParams(ac);
    var k := CommandStart(m);
    if k <= |c| && ap == c[k..] {
      CommandCut(c, k, ap);
    } else {
      assert ap == [];
    }
    LayoutOfCuts(c, m, ac);
  }

  /** irc_parse on a line, read up to its first NUL: the prefix is the text
      after a leading ':' up to the first space; the command is the text
      after it up to the next space, nil only when nothing follows; the
      parameters are what the parameter loop makes of the rest. */
  function Parse(line: string): (m: IrcMessage)
    ensures m.prefix.Some? <==> |line| > 0 && line[0] == ':'
    ensures m.prefix.Some? ==> ' ' !in m.prefix.value && '\0' !in m.prefix.value
    ensures Layout(CString(line), m)
  {
    AssembleLayout(CString(line));
    Assemble(CString(line))
  }

  // ---------------------------------------------------------------------------
  // Properties
  // ---------------------------------------------------------------------------

  /** Text a C string can carry as one parameter in the middle of a line. */
  predicate MiddleParam(p: string)
  {
    ' ' !in p && '\0' !in p && (|p| > 0 ==> p[0] != ':')
  }

  /** `s` ends with `t`. */
  predicate EndsWith(s: string, t: string)
  {
    |t| <= |s| && s[|s| - |t|..] == t
  }

  /** A suffix of the tail is a suffix of the whole. */
  lemma EndsWithAppend(a: string, s: string, t: string)
    requires EndsWith(s, t)
    ensures EndsWith(a + s, t)
  {
    assert (a + s)[|a + s| - |t|..] == s[|s| - |t|..];
  }

  /** The shape of a parameter list, stated for ParamsShape. */
  predicate ParamsShaped(s: string, ps: seq<string>)
  {
    && (forall i :: 0 <= i < |ps| - 1 ==> MiddleParam(ps[i]))
    && (forall i :: 0 <= i < |ps| ==> '\0' !in ps[i])
    && (|ps| > 0 && ' ' in ps[|ps| - 1] ==> EndsWith(s, ":" + ps[|ps| - 1]))
  }

  /** A middle token in front of a well-shaped list keeps it well shaped. */
  lemma ParamsShapedCons(tok: string, rest: string, tailPs: seq<string>)
    requires MiddleParam(tok)
    requires ParamsShaped(rest, tailPs)
    ensures ParamsShaped(tok + " " + rest, [tok] + tailPs)
  {
    var ps := [tok] + tailPs;
    forall i | 0 <= i < |ps| ensures '\0' !in ps[i] && (i < |ps| - 1 ==> MiddleParam(ps[i])) {
      if i > 0 { assert ps[i] == tailPs[i - 1]; }
    }
    if |tailPs| > 0 && ' ' in ps[|ps| - 1] {
      assert ps[|ps| - 1] == tailPs[|tailPs| - 1];
      EndsWithAppend(tok + " ", rest, ":" + ps[|ps| - 1]);
    }
  }

  /** Every parameter but the last is one space-free token not starting
      with ':'; a last parameter holding a space is the text after a ':'
      that ends the line. */
  lemma {:induction false} ParamsShape(s: string)
    requires '\0' !in s
    ensures ParamsShaped(s, ParseParams(s))
    decreases |s|
  {
    if |s| > 0 && s[0] == ':' {
      assert s == ":" + s[1..];
    } else if |s| > 0 {
      var (tok, rest) := Token(s);
      if s != tok {
        assert s == tok + " " + rest;
        assert '\0' !in tok && '\0' !in rest;
        assert MiddleParam(tok) by {
          if |tok| > 0 { assert s[0] == tok[0]; }
        }
        ParamsShape(rest);
        ParseParamsCons(tok, rest);
        ParamsShapedCons(tok, rest, ParseParams(rest));
      }
    }
  }

  /** "a  b" has an empty parameter between the spaces; "a " has none after
      its trailing space; ":x y" is one parameter. */
  lemma ParamsExamples()
    ensures ParseParams("a  b") == ["a", "", "b"]
    ensures ParseParams("a ") == ["a"]
    ensures ParseParams(":x y") == ["x y"]
    ensures ParseParams("a :b c") == ["a", "b c"]
  {
    TokenOfJoin("a", " b");
    assert "a  b" == "a" + " " + " b";
    TokenOfJoin("", "b");
    assert " b" == "" + " " + "b";
    TokenOfWhole("b");
    TokenOfJoin("a", "");
    assert "a " == "a" + " " + "";
    TokenOfJoin("a", ":b c");
    assert "a :b c" == "a" + " " + ":b c";
  }

  /** A message as a server would send it: the prefix after ':', the
      command, the middle parameters each after a space, and the last one
      after " :". */
  function Format(m: IrcMessage): string
  {
    (if m.prefix.Some? then ":" + m.prefix.value + (if m.command.Some? then " " else "") else "")
    + (if m.command.Some? then m.command.value else "")
    + FormatParams(m.params)
  }

  function FormatParams(ps: seq<string>): string
  {
    if |ps| == 0 then ""
    else if |ps| == 1 then " :" + ps[0]
    else " " + ps[0] + FormatParams(ps[1..])
  }

  /** The messages Format writes and Parse reads back. */
  predicate WellFormed(m: IrcMessage)
  {
    && (m.prefix.Some? ==> ' ' !in m.prefix.value && '\0' !in m.prefix.value)
    && (m.command.Some? ==>
          |m.command.value| > 0 && ' ' !in m.command.value && '\0' !in m.command.value
          && (m.prefix.None? ==> m.command.value[0] != ':'))
    && (m.command.None? ==> m.params == [])
    && (forall i :: 0 <= i < |m.params| - 1 ==> MiddleParam(m.params[i]))
    && (|m.params| > 0 ==> '\0' !in m.params[|m.params| - 1])
  }

  lemma TokenOfJoin(a: string, b: string)
    requires ' ' !in a
    ensures Token(a + " " + b) == (a, b)
  {
    var s := a + " " + b;
    assert s[|a|] == ' ';
    assert s[..|a|] == a;
    assert s[|a| + 1..] == b;
  }

  lemma TokenOfWhole(a: string)
    requires ' ' !in a
    ensures Token(a) == (a, [])
  {
  }

  /** A middle parameter and a space in front of more parameters. */
  lemma ParseParamsCons(tok: string, rest: string)
    requires MiddleParam(tok)
    ensures ParseParams(tok + " " + rest) == [tok] + ParseParams(rest)
  {
    var s := tok + " " + rest;
    TokenOfJoin(tok, rest);
    assert s[0] == if |tok| == 0 then ' ' else tok[0];
  }

  lemma SpaceShift(a: string, t: string)
    requires |t| > 0 && t[0] == ' '
    ensures (" " + a + t)[1..] == a + " " + t[1..]
  {
    assert t == " " + t[1..];
  }

  /** The parameters come back from their formatted text. */
  lemma {:induction false} ParamsRoundTrip(ps: seq<string>)
    requires |ps| > 0
    requires forall i :: 0 <= i < |ps| - 1 ==> MiddleParam(ps[i])
    ensures |FormatParams(ps)| > 0 && FormatParams(ps)[0] == ' '
    ensures ParseParams(FormatParams(ps)[1..]) == ps
    decreases |ps|
  {
    var text := FormatParams(ps);
    if |ps| == 1 {
      assert text[1..] == ":" + ps[0];
      assert (":" + ps[0])[1..] == ps[0];
    } else {
      var tail := FormatParams(ps[1..]);
      assert forall i :: 0 <= i < |ps[1..]| - 1 ==> MiddleParam(ps[1..][i]) by {
        forall i | 0 <= i < |ps[1..]| - 1 ensures MiddleParam(ps[1..][i]) {
          assert ps[1..][i] == ps[i + 1];
        }
      }
      ParamsRoundTrip(ps[1..]);
      assert text == " " + ps[0] + tail;
      SpaceShift(ps[0], tail);
      assert MiddleParam(ps[0]);
      ParseParamsCons(ps[0], tail[1..]);
      assert ps == [ps[0]] + ps[1..];
    }
  }

  /** The prefix step undoes the prefix part of Format. */
  lemma SplitPrefixOfFormat(m: IrcMessage, afterPrefix: string)
    requires WellFormed(m)
    requires afterPrefix == (if m.command.Some? then m.command.value else "") + FormatParams(m.params)
    ensures SplitPrefix(Format(m)) == (m.prefix, afterPrefix)
  {
    var line := Format(m);
    if m.prefix.Some? {
      var p := m.prefix.value;
      if m.command.Some? {
        assert line == ":" + (p + " " + afterPrefix);
        assert line[1..] == p + " " + afterPrefix;
        TokenOfJoin(p, afterPrefix);
      } else {
        assert line == ":" + p;
        assert line[1..] == p;
        TokenOfWhole(p);
      }
    } else {
      assert line == afterPrefix;
    }
  }

  /** A command followed by text that starts with a space. */
  lemma CommandThenParams(c: string, tail: string)
    requires ' ' !in c && |c| > 0
    requires |tail| > 0 && tail[0] == ' '
    ensures SplitCommand(c + tail) == (Some(c), tail[1..])
  {
    assert c + tail == c + " " + tail[1..];
    TokenOfJoin(c, tail[1..]);
  }

  /** The command step undoes the command part of Format. */
  lemma SplitCommandOfFormat(m: IrcMessage, afterPrefix: string)
    requires WellFormed(m)
    requires afterPrefix == (if m.command.Some? then m.command.value else "") + FormatParams(m.params)
    ensures var (c, rest) := SplitCommand(afterPrefix);
      && c == m.command
      && (|m.params| > 0 ==> rest == FormatParams(m.params)[1..])
      && (|m.params| == 0 ==> rest == [])
  {
    if m.command.Some? {
      var c := m.command.value;
      var tail := FormatParams(m.params);
      if |m.params| > 0 {
        assert |tail| > 0 && tail[0] == ' ';
        CommandThenParams(c, tail);
      } else {
        assert afterPrefix == c;
        TokenOfWhole(c);
        assert SplitCommand(afterPrefix) == (Some(c), []);
      }
    } else {
      assert afterPrefix == [];
    }
  }

  /** What Format writes, Parse reads back. */
  lemma ParseFormatRoundTrip(m: IrcMessage)
    requires WellFormed(m)
    ensures Parse(Format(m)) == m
  {
    var line := Format(m);
    NoNulInFormatParams(m.params);
    assert '\0' !in line;
    CStringOfClean(line);
    var afterPrefix := (if m.command.Some? then m.command.value else "") + FormatParams(m.params);
    SplitPrefixOfFormat(m, afterPrefix);
    SplitCommandOfFormat(m, afterPrefix);
    if |m.params| > 0 {
      ParamsRoundTrip(m.params);
    }
  }

  lemma {:induction false} NoNulInFormatParams(ps: seq<string>)
    requires forall i :: 0 <= i < |ps| - 1 ==> MiddleParam(ps[i])
    requires |ps| > 0 ==> '\0' !in ps[|ps| - 1]
    ensures '\0' !in FormatParams(ps)
    decreases |ps|
  {
    if |ps| > 1 {
      assert forall i :: 0 <= i < |ps[1..]| - 1 ==> MiddleParam(ps[1..][i]) by {
        forall i | 0 <= i < |ps[1..]| - 1 ensures MiddleParam(ps[1..][i]) {
          assert ps[1..][i] == ps[i + 1];
        }
      }
      NoNulInFormatParams(ps[1..]);
      assert MiddleParam(ps[0]);
    }
  }

  /** A typical server line. */
  lemma ParseExample()
    ensures Parse(":n!u@h PRIVMSG #c :hi all") == IrcMessage(Some("n!u@h"), Some("PRIVMSG"), ["#c", "hi all"])
  {
    var m := IrcMessage(Some("n!u@h"), Some("PRIVMSG"), ["#c", "hi all"]);
    WellFormedExample();
    FormatExample();
    ParseFormatRoundTrip(m);
  }

  lemma WellFormedExample()
    ensures WellFormed(IrcMessage(Some("n!u@h"), Some("PRIVMSG"), ["#c", "hi all"]))
  {
    assert ' ' !in "n!u@h" && '\0' !in "n!u@h";
    assert ' ' !in "PRIVMSG" && '\0' !in "PRIVMSG";
    assert MiddleParam("#c");
    assert '\0' !in "hi all";
  }

  lemma FormatExample()
    ensures Format(IrcMessage(Some("n!u@h"), Some("PRIVMSG"), ["#c", "hi all"])) == ":n!u@h PRIVMSG #c :hi all"
  {
    var ps := ["#c", "hi all"];
    assert ps[1..] == ["hi all"];
    assert FormatParams(ps) == " #c :hi all";
  }

  /** A bare command. */
  lemma ParseCommandExample()
    ensures Parse("PING") == IrcMessage(None, Some("PING"), [])
  {
    var m := IrcMessage(None, Some("PING"), []);
    assert Format(m) == "PING";
    ParseFormatRoundTrip(m);
  }

  /** A bare prefix, and an empty line. */
  lemma ParsePrefixExample()
    ensures Parse(":server") == IrcMessage(Some("server"), None, [])
    ensures Parse("") == IrcMessage(None, None, [])
  {
    var m := IrcMessage(Some("server"), None, []);
    assert Format(m) == ":server";
    ParseFormatRoundTrip(m);
  }

  /** Two spaces after the prefix: the command is the empty text between
      them. */
  lemma ParseDoubleSpaceExample()
    ensures Parse(":a  b") == IrcMessage(Some("a"), Some(""), ["b"])
  {
    CStringOfClean(":a  b");
    assert ":a  b"[1..] == "a" + " " + " b";
    TokenOfJoin("a", " b");
    assert " b" == "" + " " + "b";
    TokenOfJoin("", "b");
    TokenOfWhole("b");
    assert ParseParams("b") == ["b"] + ParseParams([]);
  }
}
