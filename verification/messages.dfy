/** The pluralised "missing required arguments" message
    (`get_missing_arguments_message`) and what a reader can recover from it. */
module Messages {
  import opened Results

  /** Decimal rendering of a natural number (Python's `str` on an int). */
  function NatToString(n: nat): (s: string)
    ensures |s| > 0
    ensures forall i :: 0 <= i < |s| ==> '0' <= s[i] <= '9'
  {
    if n < 10 then [Digit(n)] else NatToString(n / 10) + [Digit(n % 10)]
  }

  function Digit(d: nat): (c: char)
    requires d < 10
    ensures '0' <= c <= '9'
  {
    ['0', '1', '2', '3', '4', '5', '6', '7', '8', '9'][d]
  }

  function DigitValue(c: char): nat {
    if '0' <= c <= '9' then (c as int - '0' as int) as nat else 0
  }

  /** Reads a decimal numeral back (the inverse of `NatToString`). */
  function ParseNat(s: string): nat {
    if |s| == 0 then 0 else ParseNat(s[..|s| - 1]) * 10 + DigitValue(s[|s| - 1])
  }

  lemma {:induction false} ParseNatToString(n: nat)
    ensures ParseNat(NatToString(n)) == n
  {
    var s := NatToString(n);
    if n >= 10 {
      ParseNatToString(n / 10);
      assert s[..|s| - 1] == NatToString(n / 10);
    }
  }

  /** A name between single quotes. */
  function Quote(name: string): string {
    "'" + name + "'"
  }

  /** `", ".join(...)` of the quoted names. */
  function JoinQuoted(names: seq<string>): string {
    if |names| == 0 then ""
    else if |names| == 1 then Quote(names[0])
    else Quote(names[0]) + (", " + JoinQuoted(names[1..]))
  }

  /** The argument list of the message: one quoted name, or all of them with
      ", and " before the last (written even for exactly two names). */
  function ArgList(names: seq<string>): string
    requires |names| > 0
  {
    if |names| == 1 then Quote(names[0])
    else JoinQuoted(names[..|names| - 1]) + (", and " + Quote(names[|names| - 1]))
  }

  /** Everything before the argument list: the function name, the count, the
      argument type and its plural `s`. */
  function Head(functionName: string, count: nat, argumentType: string): string {
    functionName + (" missing " + (NatToString(count) + (" required " + (argumentType
      + ((if count == 1 then "" else "s") + ": ")))))
  }

  /** The message for a non-empty sequence of missing names. The source
      indexes `names[0]`/`names[-1]`, so an empty list raises there. */
  function MissingArgumentsMessage(functionName: string, names: seq<string>, argumentType: string): string
    requires |names| > 0
  {
    Head(functionName, |names|, argumentType) + ArgList(names)
  }

  /** The type word carries a plural `s` exactly when more than one name is
      missing. */
  lemma MessagePlural(functionName: string, names: seq<string>, argumentType: string)
    requires |names| > 0
    ensures var msg := MissingArgumentsMessage(functionName, names, argumentType);
            var k := |functionName| + 9 + |NatToString(|names|)| + 10 + |argumentType|;
            |msg| > k && (msg[k] == 's' <==> |names| > 1)
  {
    var tail := (if |names| == 1 then "" else "s") + ": ";
    Layout(functionName, NatToString(|names|), argumentType, tail, ArgList(names));
  }

  /** The message opens with "<function> missing <N>" where N is the decimal
      numeral of the number of names (which `ParseNatToString` reads back). */
  lemma MessageCount(functionName: string, names: seq<string>, argumentType: string)
    requires |names| > 0
    ensures var msg := MissingArgumentsMessage(functionName, names, argumentType);
            var numeral := NatToString(|names|);
            var f := |functionName|;
            && |msg| >= f + 9 + |numeral|
            && msg[..f + 9] == functionName + " missing "
            && msg[f + 9..f + 9 + |numeral|] == numeral
  {
    var numeral := NatToString(|names|);
    var tail := (if |names| == 1 then "" else "s") + ": ";
    Layout(functionName, numeral, argumentType, tail, ArgList(names));
  }

  /** Where the pieces of a message sit, whatever their contents. */
  lemma Layout(fn: string, numeral: string, at: string, tail: string, al: string)
    requires |tail| > 0
    ensures var msg := fn + (" missing " + (numeral + (" required " + (at + tail)))) + al;
            var f := |fn|;
            var k := f + 9 + |numeral| + 10 + |at|;
            && |msg| > k
            && msg[..f + 9] == fn + " missing "
            && msg[f + 9..f + 9 + |numeral|] == numeral
            && msg[k] == tail[0]
  {
    var s3 := at + tail;
    var s2 := " required " + s3;
    var s1 := numeral + s2;
    var s0 := " missing " + s1;
    var msg := fn + s0 + al;
    var f := |fn|;
    Assoc(fn, s0, al);
    var r0 := s0 + al;
    Assoc(" missing ", s1, al);
    var r1 := s1 + al;
    Assoc(numeral, s2, al);
    var r2 := s2 + al;
    Assoc(" required ", s3, al);
    var r3 := s3 + al;
    Assoc(at, tail, al);
    var k := f + 9 + |numeral| + 10 + |at|;
    assert msg[..f + 9] == fn + " missing ";
    assert msg[f..] == r0;
    assert msg[f + 9..] == r1;
    assert msg[f + 9 + |numeral|..] == r2;
    assert msg[k - |at|..] == r3;
    assert msg[k..] == tail + al;
  }

  lemma Assoc(a: string, b: string, c: string)
    ensures (a + b) + c == a + (b + c)
  {
  }

  lemma SplitAt(a: string, b: string)
    ensures (a + b)[..|a|] == a && (a + b)[|a|..] == b
  {
  }

  predicate NoQuote(s: string) {
    forall i :: 0 <= i < |s| ==> s[i] != '\''
  }

  /** Collects the texts standing between successive pairs of single quotes;
      `open` holds the text read since an unmatched opening quote. */
  function Tokens(s: string, open: Option<string>): seq<string>
    decreases |s|
  {
    if |s| == 0 then []
    else match open
      case None =>
        if s[0] == '\'' then Tokens(s[1..], Some("")) else Tokens(s[1..], None)
      case Some(acc) =>
        if s[0] == '\'' then [acc] + Tokens(s[1..], None) else Tokens(s[1..], Some(acc + [s[0]]))
  }

  /** The quoted tokens of a text: what a reader extracts from a message to
      learn which names are missing. */
  function QuotedTokens(s: string): seq<string> {
    Tokens(s, None)
  }

  lemma {:induction false} QuotedTokensSkip(a: string, b: string)
    requires NoQuote(a)
    ensures Tokens(a + b, None) == Tokens(b, None)
  {
    if |a| > 0 {
      assert (a + b)[0] == a[0];
      assert (a + b)[1..] == a[1..] + b;
      QuotedTokensSkip(a[1..], b);
    } else {
      assert a + b == b;
    }
  }

  lemma {:induction false} TokensInside(n: string, acc: string, b: string)
    requires NoQuote(n)
    ensures Tokens(n + ("'" + b), Some(acc)) == [acc + n] + Tokens(b, None)
  {
    if |n| > 0 {
      assert (n + ("'" + b))[0] == n[0];
      assert (n + ("'" + b))[1..] == n[1..] + ("'" + b);
      TokensInside(n[1..], acc + [n[0]], b);
      assert acc + [n[0]] + n[1..] == acc + n;
    } else {
      assert n + ("'" + b) == "'" + b;
      assert ("'" + b)[1..] == b;
      assert acc + n == acc;
    }
  }

  lemma QuotedTokensQuote(n: string, b: string)
    requires NoQuote(n)
    ensures Tokens(Quote(n) + b, None) == [n] + Tokens(b, None)
  {
    assert Quote(n) + b == "'" + (n + ("'" + b));
    TokensInside(n, "", b);
    assert "" + n == n;
  }

  predicate AllNoQuote(names: seq<string>) {
    forall i :: 0 <= i < |names| ==> NoQuote(names[i])
  }

  lemma {:induction false} QuotedTokensJoin(names: seq<string>, b: string)
    requires |names| > 0 && AllNoQuote(names)
    ensures Tokens(JoinQuoted(names) + b, None) == names + Tokens(b, None)
  {
    if |names| == 1 {
      QuotedTokensQuote(names[0], b);
    } else {
      var j := JoinQuoted(names[1..]);
      var tail := j + b;
      assert JoinQuoted(names) == Quote(names[0]) + (", " + j);
      Assoc(Quote(names[0]), ", " + j, b);
      Assoc(", ", j, b);
      QuotedTokensQuote(names[0], ", " + tail);
      assert NoQuote(", ");
      QuotedTokensSkip(", ", tail);
      QuotedTokensJoin(names[1..], b);
      assert names == [names[0]] + names[1..];
    }
  }

  lemma HeadHasNoQuote(functionName: string, count: nat, argumentType: string)
    requires NoQuote(functionName) && NoQuote(argumentType)
    ensures NoQuote(Head(functionName, count, argumentType))
  {
    var numeral := NatToString(count);
    var tail := (if count == 1 then "" else "s") + ": ";
    assert NoQuote(tail);
    assert NoQuote(argumentType + tail);
    assert NoQuote(" required " + (argumentType + tail));
    assert NoQuote(numeral + (" required " + (argumentType + tail)));
    assert NoQuote(" missing " + (numeral + (" required " + (argumentType + tail))));
  }

  /** Round trip: when no name (nor the function name or argument type)
      contains a single quote, the quoted tokens of the message are exactly
      the missing names, in order. */
  lemma MessageListsExactlyTheNames(functionName: string, names: seq<string>, argumentType: string)
    requires |names| > 0 && AllNoQuote(names)
    requires NoQuote(functionName) && NoQuote(argumentType)
    ensures QuotedTokens(MissingArgumentsMessage(functionName, names, argumentType)) == names
  {
    HeadHasNoQuote(functionName, |names|, argumentType);
    QuotedTokensSkip(Head(functionName, |names|, argumentType), ArgList(names));
    if |names| == 1 {
      assert ArgList(names) == Quote(names[0]) + "";
      QuotedTokensQuote(names[0], "");
    } else {
      var last := names[|names| - 1];
      var init := names[..|names| - 1];
      assert AllNoQuote(init);
      QuotedTokensJoin(init, ", and " + Quote(last));
      assert NoQuote(", and ");
      QuotedTokensSkip(", and ", Quote(last));
      assert Quote(last) == Quote(last) + "";
      QuotedTokensQuote(last, "");
      assert names == init + [last];
    }
  }

  /** One name: the count 1, the singular type word, and that name alone
      in quotes. */
  lemma OneNameMessage(functionName: string, name: string, argumentType: string)
    ensures MissingArgumentsMessage(functionName, [name], argumentType)
      == functionName + (" missing " + ("1" + (" required " + (argumentType + ": ")))) + Quote(name)
  {
    assert NatToString(1) == "1";
    assert "" + ": " == ": ";
  }

  /** Two names: the count 2, the plural type word, and ", and " written
      even between just two names. */
  lemma TwoNamesMessage(functionName: string, first: string, second: string, argumentType: string)
    ensures MissingArgumentsMessage(functionName, [first, second], argumentType)
      == functionName + (" missing " + ("2" + (" required " + (argumentType + "s: "))))
        + (Quote(first) + (", and " + Quote(second)))
  {
    assert NatToString(2) == "2";
    assert "s" + ": " == "s: ";
    assert [first, second][..1] == [first];
  }
}
