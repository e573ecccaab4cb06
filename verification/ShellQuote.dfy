/**
 How the commands of a plan are shown (shellQuote and showCmd in tools/cmd/invirtio/plan.go),
 and a reader of them: the quoting of sections 2.2.1 and 2.2.2 and the words of section 2.3 of
 the POSIX Shell Command Language.
 */
module ShellQuote {
  import opened Sequences
  import opened Wrappers

  const QUOTE := '\''
  const BACKSLASH := '\\'

  /** The characters of the list in shellQuote. */
  predicate IsPlain(c: char) {
    'a' <= c <= 'z' || 'A' <= c <= 'Z' || '0' <= c <= '9'
    || c == '-' || c == '_' || c == '.' || c == '/' || c == ':' || c == '=' || c == '@' || c == '%'
    || c == '+' || c == ','
  }

  /** strings.Trim with the list leaves nothing. */
  predicate AllPlain(s: string) {
    forall i | 0 <= i < |s| :: IsPlain(s[i])
  }

  /** strings.ReplaceAll of a single quote. */
  function Escaped(s: string): string {
    if s == "" then ""
    else if s[0] == QUOTE then [QUOTE, BACKSLASH, QUOTE, QUOTE] + Escaped(s[1..])
    else [s[0]] + Escaped(s[1..])
  }

  function Quoted(s: string): string {
    if s != "" && AllPlain(s) then s else [QUOTE] + Escaped(s) + [QUOTE]
  }

  /** An argument is shown as it is exactly if it is not empty and has no character but these. */
  lemma ShownAsIsExactly(s: string)
    ensures Quoted(s) == s <==>
      s != "" && forall c | c in s ::
        'a' <= c <= 'z' || 'A' <= c <= 'Z' || '0' <= c <= '9' || c in "-_./:=@%+,"
  {
    EscapedIsNoShorter(s);
    hide Escaped;
    forall c: char
      ensures IsPlain(c) <==>
        'a' <= c <= 'z' || 'A' <= c <= 'Z' || '0' <= c <= '9' || c in "-_./:=@%+,"
    {
      var marks := "-_./:=@%+,";
      assert marks[0] == '-' && marks[1] == '_' && marks[2] == '.' && marks[3] == '/' && marks[4] == ':';
      assert marks[5] == '=' && marks[6] == '@' && marks[7] == '%' && marks[8] == '+' && marks[9] == ',';
    }
    assert forall i | 0 <= i < |s| :: s[i] in s;
  }

  lemma {:induction false} EscapedIsNoShorter(s: string)
    ensures |Escaped(s)| >= |s|
  {
    if s != "" {
      EscapedIsNoShorter(s[1..]);
    }
  }

  /** strings.Join with spaces. */
  function Join(words: seq<string>): string
    requires words != []
  {
    if |words| == 1 then words[0] else words[0] + ([' '] + Join(words[1..]))
  }

  function QuotedAll(words: seq<string>): (r: seq<string>)
    ensures |r| == |words|
  {
    if words == [] then [] else [Quoted(words[0])] + QuotedAll(words[1..])
  }

  /** What the shell takes as more than itself when it is not quoted, by section 2.2. */
  predicate IsSpecial(c: char) {
    c == '|' || c == '&' || c == ';' || c == '<' || c == '>' || c == '(' || c == ')' || c == '$' || c == '`'
    || c == '"' || c == '\n' || c == '*' || c == '?' || c == '[' || c == '#' || c == '~'
  }

  /** What the shell has read of a word. */
  function Started(word: Option<string>): string {
    if word.Some? then word.value else ""
  }

  /**
   The words of a command, or None if a quote is left open or the command has an operator, an
   expansion or a comment. word is what was read of the current word, if it has started.
   */
  function Words(s: string, word: Option<string>, quoted: bool): Option<seq<string>>
    decreases |s|
  {
    if s == "" then
      if quoted then None else Some(if word.Some? then [word.value] else [])
    else if quoted then
      if s[0] == QUOTE then Words(s[1..], word, false) else Words(s[1..], Some(Started(word) + [s[0]]), true)
    else if s[0] == ' ' || s[0] == '\t' then
      var rest := Words(s[1..], None, false);
      if rest.Some? then Some((if word.Some? then [word.value] else []) + rest.value) else None
    else if s[0] == QUOTE then Words(s[1..], Some(Started(word)), true)
    else if s[0] == BACKSLASH then
      if |s| == 1 then None
      else if s[1] == '\n' then Words(s[2..], word, false)
      else Words(s[2..], Some(Started(word) + [s[1]]), false)
    else if IsSpecial(s[0]) then None
    else Words(s[1..], Some(Started(word) + [s[0]]), false)
  }

  lemma {:induction false} PlainPasses(s: string, rest: string, word: Option<string>)
    requires AllPlain(s) && s != ""
    ensures Words(s + rest, word, false) == Words(rest, Some(Started(word) + s), false)
    decreases |s|
  {
    hide *;
    var next := Some(Started(word) + [s[0]]);
    PlainStep(s, rest, word);
    if |s| > 1 {
      AllPlainRest(s);
      PlainPasses(s[1..], rest, next);
      StartedNext(word, s);
    } else {
      assert s == [s[0]] && s[1..] + rest == rest;
    }
  }

  lemma PlainStep(s: string, rest: string, word: Option<string>)
    requires AllPlain(s) && s != ""
    ensures Words(s + rest, word, false) == Words(s[1..] + rest, Some(Started(word) + [s[0]]), false)
  {
    assert IsPlain(s[0]);
    assert (s + rest)[1..] == s[1..] + rest;
  }

  lemma AllPlainRest(s: string)
    requires AllPlain(s) && s != ""
    ensures AllPlain(s[1..])
  {
  }

  lemma StartedNext(word: Option<string>, s: string)
    requires s != ""
    ensures Started(Some(Started(word) + [s[0]])) + s[1..] == Started(word) + s
  {
    assert [s[0]] + s[1..] == s;
  }

  /** Inside the quotes, what stands for a quote leaves them, adds it, and enters them again. */
  lemma {:induction false} EscapedPasses(s: string, rest: string, word: string)
    ensures Words(Escaped(s) + ([QUOTE] + rest), Some(word), true) == Words(rest, Some(word + s), false)
    decreases |s|
  {
    hide Words;
    var last := [QUOTE] + rest;
    if s == "" {
      CloseQuote(rest, word);
      assert Escaped(s) + last == last && word + s == word;
    } else {
      var more := Escaped(s[1..]) + last;
      EscapedPasses(s[1..], rest, word + [s[0]]);
      Regroup(word, [s[0]], s[1..]);
      assert [s[0]] + s[1..] == s;
      if s[0] == QUOTE {
        Regroup([QUOTE, BACKSLASH, QUOTE, QUOTE], Escaped(s[1..]), last);
        QuoteInQuotes(more, word);
      } else {
        Regroup([s[0]], Escaped(s[1..]), last);
        OtherInQuotes(s[0], more, word);
      }
    }
  }

  lemma CloseQuote(rest: string, word: string)
    ensures Words([QUOTE] + rest, Some(word), true) == Words(rest, Some(word), false)
  {
    assert ([QUOTE] + rest)[1..] == rest;
  }

  lemma OtherInQuotes(c: char, more: string, word: string)
    requires c != QUOTE
    ensures Words([c] + more, Some(word), true) == Words(more, Some(word + [c]), true)
  {
    assert ([c] + more)[1..] == more;
  }

  lemma QuoteInQuotes(more: string, word: string)
    ensures Words([QUOTE, BACKSLASH, QUOTE, QUOTE] + more, Some(word), true) == Words(more, Some(word + [QUOTE]), true)
  {
    var s := [QUOTE, BACKSLASH, QUOTE, QUOTE] + more;
    assert s[1..] == [BACKSLASH, QUOTE, QUOTE] + more;
    assert s[1..][2..] == [QUOTE] + more;
    assert s[1..][2..][1..] == more;
    assert Words(s, Some(word), true) == Words(s[1..], Some(word), false);
    assert Words(s[1..], Some(word), false) == Words(s[1..][2..], Some(word + [QUOTE]), false);
  }

  lemma OpenQuote(rest: string)
    ensures Words([QUOTE] + rest, None, false) == Words(rest, Some(""), true)
  {
    assert ([QUOTE] + rest)[1..] == rest;
  }

  /** A quoted argument is one word, which is the argument. */
  lemma QuotedPasses(s: string, rest: string)
    ensures Words(Quoted(s) + rest, None, false) == Words(rest, Some(s), false)
  {
    hide Words;
    assert "" + s == s;
    if s != "" && AllPlain(s) {
      PlainPasses(s, rest, None);
    } else {
      Regroup([QUOTE] + Escaped(s), [QUOTE], rest);
      Regroup([QUOTE], Escaped(s), [QUOTE] + rest);
      OpenQuote(Escaped(s) + ([QUOTE] + rest));
      EscapedPasses(s, rest, "");
    }
  }

  lemma LastWord(word: string)
    ensures Words(Quoted(word), None, false) == Some([word])
  {
    QuotedPasses(word, "");
    hide Quoted;
    assert Quoted(word) + "" == Quoted(word);
  }

  lemma FirstWord(word: string, rest: string)
    ensures var r := Words(rest, None, false);
      Words(Quoted(word) + ([' '] + rest), None, false) == if r.Some? then Some([word] + r.value) else None
  {
    QuotedPasses(word, [' '] + rest);
    hide Quoted;
    assert ([' '] + rest)[1..] == rest;
  }

  /** Reading a shown command gives back its words, whatever is in them. */
  lemma {:induction false} ShownReadsBack(words: seq<string>)
    requires words != []
    ensures Words(Join(QuotedAll(words)), None, false) == Some(words)
  {
    hide Words, Quoted;
    if |words| == 1 {
      LastWord(words[0]);
      assert words == [words[0]] && QuotedAll(words) == [Quoted(words[0])];
    } else {
      FirstWord(words[0], Join(QuotedAll(words[1..])));
      ShownReadsBack(words[1..]);
      assert QuotedAll(words)[1..] == QuotedAll(words[1..]);
      assert words == [words[0]] + words[1..];
    }
  }

  /** Two commands are shown the same only if they are the same. */
  lemma ShownIsInjective(a: seq<string>, b: seq<string>)
    requires a != [] && b != [] && Join(QuotedAll(a)) == Join(QuotedAll(b))
    ensures a == b
  {
    ShownReadsBack(a);
    ShownReadsBack(b);
  }

  /** showCmd */
  method ShowCmd(name: string, args: seq<string>) returns (s: string)
    ensures s == Join(QuotedAll([name] + args))
    ensures Words(s, None, false) == Some([name] + args)
  {
    var words := [Quoted(name)];
    assert words == QuotedAll([name]);
    for i := 0 to |args|
      invariant words == QuotedAll([name] + args[..i])
    {
      QuotedAppend([name] + args[..i], args[i]);
      assert [name] + args[..i + 1] == [name] + args[..i] + [args[i]];
      words := words + [Quoted(args[i])];
    }
    assert args[..|args|] == args;
    ShownReadsBack([name] + args);
    s := Join(words);
  }

  lemma {:induction false} QuotedAppend(words: seq<string>, word: string)
    ensures QuotedAll(words + [word]) == QuotedAll(words) + [Quoted(word)]
  {
    if words == [] {
      assert words + [word] == [word] && QuotedAll([word][1..]) == [];
    } else {
      assert (words + [word])[1..] == words[1..] + [word];
      QuotedAppend(words[1..], word);
    }
  }
}
