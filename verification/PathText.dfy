/** The text form of paths: names separated by slashes, list positions in brackets. */
module PathText {
  import opened Basics
  import opened Paths

  // ----- searching --------------------------------------------------------------

  /** The first position of `c`, or the length when there is none. */
  function FirstOf(s: string, c: char): (i: nat)
    ensures i <= |s| && c !in s[..i] && (i < |s| ==> s[i] == c)
  {
    if s == "" || s[0] == c then 0
    else
      var i := 1 + FirstOf(s[1..], c);
      assert s[..i] == [s[0]] + s[1..][..i - 1];
      i
  }

  lemma {:induction false} FirstAfter(a: string, c: char, b: string)
    requires c !in a
    ensures FirstOf(a + [c] + b, c) == |a| && FirstOf(a, c) == |a|
  {
    if a == "" {
      assert (a + [c] + b)[0] == c;
    } else {
      FirstAfter(a[1..], c, b);
      assert (a + [c] + b)[0] == a[0] && (a + [c] + b)[1..] == a[1..] + [c] + b;
    }
  }

  // ----- numbers ----------------------------------------------------------------

  const U64_LIMIT: nat := 0x1_0000_0000_0000_0000

  predicate IsDigit(c: char) { '0' <= c <= '9' }

  predicate Digits(s: string) { s != "" && forall i | 0 <= i < |s| :: IsDigit(s[i]) }

  function DigitChar(d: nat): char
    requires d <= 9
  {
    '0' + d as char
  }

  function Decimal(n: nat): (s: string)
    ensures s != "" && forall i | 0 <= i < |s| :: IsDigit(s[i])
  {
    if n < 10 then [DigitChar(n)] else Decimal(n / 10) + [DigitChar(n % 10)]
  }

  function DigitsValue(s: string): nat
    requires forall i | 0 <= i < |s| :: IsDigit(s[i])
  {
    if s == "" then 0
    else
      assert IsDigit(s[|s| - 1]);
      10 * DigitsValue(s[..|s| - 1]) + (s[|s| - 1] as int - '0' as int)
  }

  /** Digits, perhaps behind a plus sign, below two to the 64. Leading zeros are accepted. */
  function ParseU64(s: string): Option<nat> {
    var body := if |s| > 1 && s[0] == '+' then s[1..] else s;
    if Digits(body) && DigitsValue(body) < U64_LIMIT then Some(DigitsValue(body)) else None
  }

  lemma {:induction false} DecimalValue(n: nat)
    ensures DigitsValue(Decimal(n)) == n
  {
    if n < 10 {
      assert Decimal(n)[..0] == "";
    } else {
      DecimalValue(n / 10);
      assert Decimal(n)[..|Decimal(n)| - 1] == Decimal(n / 10);
    }
  }

  lemma ParseDecimal(n: nat)
    requires n < U64_LIMIT
    ensures ParseU64(Decimal(n)) == Some(n)
  {
    DecimalValue(n);
    assert IsDigit(Decimal(n)[0]);
  }

  // ----- parsing ----------------------------------------------------------------

  predicate ValidName(name: string) {
    '/' !in name && '[' !in name && ']' !in name && name != "." && name != ".."
  }

  /** The bracketed positions that end a token. */
  function Indexes(segs: Path, rest: string): (r: Result<Path>)
    ensures r.Err? ==> r.error == InvalidPath
    decreases |rest|
  {
    if rest == "" then Ok(segs)
    else if rest[0] != '[' then Err(InvalidPath)
    else
      var close := FirstOf(rest, ']');
      if close == |rest| then Err(InvalidPath)
      else match ParseU64(rest[1..close])
           case None => Err(InvalidPath)
           case Some(n) => Indexes(segs + [Index(n)], rest[close + 1..])
  }

  function TokenSegments(segs: Path, token: string): (r: Result<Path>)
    ensures r.Err? ==> r.error == InvalidPath
  {
    var bracket := FirstOf(token, '[');
    if bracket == |token| then
      if ValidName(token) then Ok(segs + [Name(token)]) else Err(InvalidPath)
    else
      var name := token[..bracket];
      if name == "" then Indexes(segs, token[bracket..])
      else if ValidName(name) then Indexes(segs + [Name(name)], token[bracket..])
      else Err(InvalidPath)
  }

  /** One slash-separated token: a step down, a stay, or a step up. */
  function Token(segs: Path, token: string): (r: Result<Path>)
    ensures r.Err? ==> r.error == InvalidPath
  {
    if token == "" then Err(InvalidPath)
    else if token == "." then Ok(segs)
    else if token == ".." then (if segs == [] then Err(InvalidPath) else Ok(Parent(segs)))
    else TokenSegments(segs, token)
  }

  function Tokens(segs: Path, s: string): (r: Result<Path>)
    ensures r.Err? ==> r.error == InvalidPath
    decreases |s|
  {
    var i := FirstOf(s, '/');
    match Token(segs, s[..i])
    case Err(e) => Err(e)
    case Ok(next) => if i == |s| then Ok(next) else Tokens(next, s[i + 1..])
  }

  function Parse(s: string): (r: Result<Path>)
    ensures r.Err? ==> r.error == InvalidPath
  {
    if s == "" then Ok([]) else Tokens([], s)
  }

  method ParseToken(token: string, segs: Path) returns (r: Result<Path>)
    ensures r == TokenSegments(segs, token)
  {
    var bracket := FirstOf(token, '[');
    if bracket == |token| {
      return if ValidName(token) then Ok(segs + [Name(token)]) else Err(InvalidPath);
    }
    var out, name := segs, token[..bracket];
    if name != "" {
      if !ValidName(name) {
        return Err(InvalidPath);
      }
      out := out + [Name(name)];
    }
    var rest := token[bracket..];
    while rest != ""
      invariant TokenSegments(segs, token) == Indexes(out, rest)
      decreases |rest|
    {
      if rest[0] != '[' {
        return Err(InvalidPath);
      }
      var close := FirstOf(rest, ']');
      if close == |rest| {
        return Err(InvalidPath);
      }
      var index := ParseU64(rest[1..close]);
      if index.None? {
        return Err(InvalidPath);
      }
      out := out + [Index(index.value)];
      rest := rest[close + 1..];
    }
    r := Ok(out);
  }

  method FromStr(s: string) returns (r: Result<Path>)
    ensures r == Parse(s)
  {
    if s == "" {
      return Ok([]);
    }
    var segs: Path := [];
    var rest := s;
    while true
      invariant Tokens([], s) == Tokens(segs, rest)
      decreases |rest|
    {
      var i := FirstOf(rest, '/');
      var token := rest[..i];
      if token == "" {
        return Err(InvalidPath);
      } else if token == "." {
      } else if token == ".." {
        if segs == [] {
          return Err(InvalidPath);
        }
        segs := segs[..|segs| - 1];
      } else {
        var parsed := ParseToken(token, segs);
        if parsed.Err? {
          return parsed;
        }
        segs := parsed.value;
      }
      if i == |rest| {
        return Ok(segs);
      }
      rest := rest[i + 1..];
    }
  }

  // ----- printing ---------------------------------------------------------------

  function SegmentText(seg: Segment, first: bool): string {
    match seg
    case Name(n) => if first then n else "/" + n
    case Index(i) => "[" + Decimal(i) + "]"
  }

  function PrintFrom(p: Path, first: bool): string {
    if p == [] then "" else SegmentText(p[0], first) + PrintFrom(p[1..], false)
  }

  function Print(p: Path): string { PrintFrom(p, true) }

  lemma PrintStep(p: Path, i: nat, first: bool, text: string)
    requires i < |p|
    ensures text + PrintFrom(p[i..], first) == text + SegmentText(p[i], first) + PrintFrom(p[i + 1..], false)
  {
    hide SegmentText;
    assert p[i..][0] == p[i] && p[i..][1..] == p[i + 1..];
  }

  method Display(p: Path) returns (text: string)
    ensures text == Print(p)
  {
    hide PrintFrom, Decimal;
    text := "";
    var first := true;
    assert p[0..] == p;
    for i := 0 to |p|
      invariant first <==> i == 0
      invariant text + PrintFrom(p[i..], first) == Print(p)
    {
      PrintStep(p, i, first, text);
      match p[i] {
        case Name(name) =>
          if first { text := text + name; } else { text := text + ("/" + name); }
        case Index(index) =>
          text := text + ("[" + Decimal(index) + "]");
      }
      first := false;
    }
    PrintNothing();
    assert p[|p|..] == [];
  }

  lemma PrintNothing()
    ensures PrintFrom([], true) == "" && PrintFrom([], false) == ""
  {}

  lemma {:induction false} NoLeadingZero(n: nat)
    ensures Decimal(n)[0] == '0' ==> n == 0
    ensures n < 10 ==> |Decimal(n)| == 1
  {
    if n >= 10 { NoLeadingZero(n / 10); }
  }

  /** A further position is printed in brackets as its digits, without leading zeros. */
  lemma PositionText(p: Path, i: nat) returns (digits: string)
    ensures Print(p + [Index(i)]) == Print(p) + "[" + digits + "]"
    ensures Digits(digits) && DigitsValue(digits) == i && (digits[0] == '0' ==> digits == "0")
  {
    hide Decimal;
    digits := Decimal(i);
    DecimalValue(i);
    NoLeadingZero(i);
    LastSegment(p, Index(i));
  }

  /** A further name is printed behind a slash, the first one without. */
  lemma NameText(p: Path, name: string)
    ensures Print(p + [Name(name)]) == if p == [] then name else Print(p) + "/" + name
    ensures Print([]) == ""
  {
    LastSegment(p, Name(name));
  }

  lemma LastSegment(p: Path, seg: Segment)
    ensures Print(p + [seg]) == Print(p) + SegmentText(seg, p == [])
  {
    hide SegmentText;
    PrintNothing();
    var all := p + [seg];
    assert [seg][1..] == [];
    if p == [] {
      assert all == [seg];
    } else {
      PrintSplit(all, |p|, true);
      assert all[..|p|] == p && all[|p|..] == [seg];
    }
  }

  // ----- which paths print and parse back ---------------------------------------

  predicate GoodSegment(seg: Segment) {
    match seg
    case Name(n) => n != "" && n != "." && n != ".." && '/' !in n && '[' !in n && ']' !in n
    case Index(i) => i < 0x1_0000_0000_0000_0000
  }

  predicate GoodPath(p: Path) { forall i | 0 <= i < |p| :: GoodSegment(p[i]) }

  lemma {:induction false} IndexesGood(segs: Path, rest: string)
    requires GoodPath(segs) && Indexes(segs, rest).Ok?
    ensures GoodPath(Indexes(segs, rest).value)
    decreases |rest|
  {
    hide ParseU64, ValidName;
    if rest != "" {
      var close := FirstOf(rest, ']');
      var n := ParseU64(rest[1..close]).value;
      SmallNumber(rest[1..close]);
      IndexesGood(segs + [Index(n)], rest[close + 1..]);
    }
  }

  lemma SmallNumber(s: string)
    ensures ParseU64(s).Some? ==> ParseU64(s).value < U64_LIMIT
  {}

  lemma TokenGood(segs: Path, token: string)
    requires GoodPath(segs) && Token(segs, token).Ok?
    ensures GoodPath(Token(segs, token).value)
  {
    if token != "." && token != ".." {
      var bracket := FirstOf(token, '[');
      if bracket < |token| {
        var name := token[..bracket];
        IndexesGood(if name == "" then segs else segs + [Name(name)], token[bracket..]);
      }
    }
  }

  lemma {:induction false} TokensGood(segs: Path, s: string)
    requires GoodPath(segs) && Tokens(segs, s).Ok?
    ensures GoodPath(Tokens(segs, s).value)
    decreases |s|
  {
    hide Token;
    var i := FirstOf(s, '/');
    TokenGood(segs, s[..i]);
    if i < |s| { TokensGood(Token(segs, s[..i]).value, s[i + 1..]); }
  }

  /** How many list positions come first. */
  function IndexRun(p: Path): (n: nat)
    ensures n <= |p| && (forall i | 0 <= i < n :: p[i].Index?) && (n < |p| ==> p[n].Name?)
  {
    if p == [] || p[0].Name? then 0 else 1 + IndexRun(p[1..])
  }

  lemma {:induction false} PrintSplit(p: Path, n: nat, first: bool)
    requires 0 < n <= |p|
    ensures PrintFrom(p, first) == PrintFrom(p[..n], first) + PrintFrom(p[n..], false)
    decreases n
  {
    hide SegmentText;
    if n == 1 {
      assert p[..1][0] == p[0] && p[..1][1..] == [];
    } else {
      PrintSplit(p[1..], n - 1, false);
      assert p[..n][1..] == p[1..][..n - 1] && p[1..][n - 1..] == p[n..];
    }
  }

  lemma {:induction false} BracketText(p: Path, first: bool, c: char)
    requires (forall i | 0 <= i < |p| :: p[i].Index?) && c != '[' && c != ']' && !IsDigit(c)
    ensures c !in PrintFrom(p, first)
    decreases |p|
  {
    if p != [] {
      BracketText(p[1..], false, c);
      forall i | 0 <= i < |Decimal(p[0].index)| ensures Decimal(p[0].index)[i] != c {}
    }
  }

  lemma OneIndex(segs: Path, n: nat, more: string)
    requires n < U64_LIMIT
    ensures Indexes(segs, "[" + Decimal(n) + "]" + more) == Indexes(segs + [Index(n)], more)
  {
    hide Decimal, ParseU64;
    var digits := Decimal(n);
    var open := "[" + digits;
    var rest := open + "]" + more;
    assert ']' !in open by { forall i | 0 <= i < |digits| ensures digits[i] != ']' {} }
    FirstAfter(open, ']', more);
    assert rest[0] == '[' && rest[1..|open|] == digits && rest[|open| + 1..] == more;
    ParseDecimal(n);
  }

  /** A run of positions reads back. */
  lemma {:induction false} IndexesPrint(segs: Path, p: Path, first: bool)
    requires GoodPath(p) && forall i | 0 <= i < |p| :: p[i].Index?
    ensures Indexes(segs, PrintFrom(p, first)) == Ok(segs + p)
    decreases |p|
  {
    hide Decimal, PrintFrom, Indexes;
    if p == [] {
      PrintNothing();
      IndexesNone(segs);
      assert segs + p == segs;
    } else {
      assert GoodSegment(p[0]);
      HeadText(p, first);
      OneIndex(segs, p[0].index, PrintFrom(p[1..], false));
      IndexesPrint(segs + [p[0]], p[1..], false);
      assert segs + [p[0]] + p[1..] == segs + p;
    }
  }

  lemma IndexesNone(segs: Path)
    ensures Indexes(segs, "") == Ok(segs)
  {}

  lemma HeadText(p: Path, first: bool)
    requires p != []
    ensures PrintFrom(p, first) == SegmentText(p[0], first) + PrintFrom(p[1..], false)
  {}

  /** One name with the positions after it is one token. */
  lemma NamedToken(segs: Path, n: string, p: Path)
    requires n != "" && ValidName(n) && p != [] && GoodPath(p) && forall i | 0 <= i < |p| :: p[i].Index?
    ensures TokenSegments(segs, n + PrintFrom(p, false)) == Ok(segs + [Name(n)] + p)
    ensures '[' in n + PrintFrom(p, false)
  {
    hide Indexes, PrintFrom, GoodPath;
    var tail := PrintFrom(p, false);
    StartsBracket(p, false);
    FirstAfter(n, '[', tail[1..]);
    assert n + tail == n + ['['] + tail[1..];
    assert (n + tail)[..|n|] == n && (n + tail)[|n|..] == tail && (n + tail)[|n|] == '[';
    IndexesPrint(segs + [Name(n)], p, false);
  }

  lemma PlainToken(segs: Path, n: string)
    requires n != "" && ValidName(n)
    ensures TokenSegments(segs, n) == Ok(segs + [Name(n)])
  {
    FirstAfter(n, '[', "");
  }

  lemma IndexToken(segs: Path, p: Path)
    requires p != [] && GoodPath(p) && forall i | 0 <= i < |p| :: p[i].Index?
    ensures TokenSegments(segs, PrintFrom(p, true)) == Ok(segs + p)
  {
    hide Indexes, PrintFrom, GoodPath;
    StartsBracket(p, true);
    IndexesPrint(segs, p, true);
    var token := PrintFrom(p, true);
    assert token[..0] == "" && token[0..] == token;
  }

  lemma NotDots(segs: Path, token: string)
    requires token != "" && token != "." && token != ".."
    ensures Token(segs, token) == TokenSegments(segs, token)
  {}

  /** One name with the positions after it, or a leading run of positions, is one token. */
  lemma TokenPrint(segs: Path, p: Path)
    requires p != [] && GoodPath(p) && forall i | 1 <= i < |p| :: p[i].Index?
    ensures '/' !in PrintFrom(p, true) && PrintFrom(p, true) != ""
    ensures Token(segs, PrintFrom(p, true)) == Ok(segs + p)
  {
    hide Indexes, TokenSegments, Token, PrintFrom;
    var token := PrintFrom(p, true);
    HeadText(p, true);
    assert GoodSegment(p[0]);
    match p[0]
    case Index(_) =>
      BracketText(p, true, '/');
      StartsBracket(p, true);
      IndexToken(segs, p);
      NotDots(segs, token);
    case Name(n) =>
      BracketText(p[1..], false, '/');
      if |p| == 1 {
        assert token == n && p == [Name(n)] by { PrintNothing(); }
        PlainToken(segs, n);
      } else {
        NamedToken(segs, n, p[1..]);
        assert segs + [Name(n)] + p[1..] == segs + p;
        assert '[' !in "." && '[' !in "..";
      }
      NotDots(segs, token);
  }

  lemma StartsBracket(p: Path, first: bool)
    requires p != [] && p[0].Index?
    ensures PrintFrom(p, first) != "" && PrintFrom(p, first)[0] == '[' && |PrintFrom(p, first)| > 2
    ensures FirstOf(PrintFrom(p, first), '[') == 0
  {}

  lemma {:induction false} TokensPrint(segs: Path, p: Path)
    requires p != [] && GoodPath(p)
    ensures Tokens(segs, PrintFrom(p, true)) == Ok(segs + p)
    decreases |p|
  {
    hide Token, PrintFrom, GoodPath, Tokens;
    var n := 1 + IndexRun(p[1..]);
    var token := PrintFrom(p[..n], true);
    forall i | 1 <= i < n ensures p[..n][i].Index? { assert p[i] == p[1..][i - 1]; }
    GoodParts(p, n);
    TokenPrint(segs, p[..n]);
    PrintSplit(p, n, true);
    OneToken(segs, token);
    if n == |p| {
      assert p[..n] == p && p[n..] == [];
      PrintNothing();
    } else {
      assert p[n] == p[1..][n - 1];
      SlashFirst(p[n..]);
      var more := PrintFrom(p[n..], true);
      TokensAppend(segs, token, more);
      assert token + "/" + more == token + ("/" + more);
      TokensPrint(segs + p[..n], p[n..]);
      assert segs + p[..n] + p[n..] == segs + p;
    }
  }

  lemma GoodParts(p: Path, n: nat)
    requires GoodPath(p) && n <= |p|
    ensures GoodPath(p[..n]) && GoodPath(p[n..])
  {}

  lemma OneToken(segs: Path, token: string)
    requires '/' !in token
    ensures Tokens(segs, token) == Token(segs, token)
  {
    hide Token;
    NoSlash(token);
    assert token[..|token|] == token;
  }

  lemma NoSlash(token: string)
    requires '/' !in token
    ensures FirstOf(token, '/') == |token|
  {
    FirstAfter(token, '/', "");
  }

  lemma SlashFirst(p: Path)
    requires p != [] && p[0].Name?
    ensures PrintFrom(p, false) == "/" + PrintFrom(p, true)
  {}

  /** A path's text reads back as the path exactly when its names are non-empty, free
      of slashes and brackets and not dots, and its positions fit 64 bits. */
  lemma ParsePrint(p: Path)
    ensures Parse(Print(p)) == Ok(p) <==> GoodPath(p)
  {
    hide Token, ValidName;
    if GoodPath(p) && p != [] {
      PrintNotEmpty(p);
      TokensPrint([], p);
      assert [] + p == p;
    }
    if Parse(Print(p)) == Ok(p) && Print(p) != "" {
      TokensGood([], Print(p));
    }
  }

  lemma PrintNotEmpty(p: Path)
    requires p != [] && GoodPath(p)
    ensures Print(p) != ""
  {}

  /** Printing what was parsed and parsing again changes nothing. */
  lemma PrintStable(s: string)
    requires Parse(s).Ok?
    ensures GoodPath(Parse(s).value) && Parse(Print(Parse(s).value)) == Parse(s)
  {
    hide Token, ValidName;
    if s != "" { TokensGood([], s); }
    ParsePrint(Parse(s).value);
  }

  // ----- which tokens are accepted ------------------------------------------------

  /** The text of a position below two to the 64: digits, perhaps behind a plus sign. */
  predicate Numeral(s: string, n: nat) {
    && n < 0x1_0000_0000_0000_0000
    && (|| (Digits(s) && DigitsValue(s) == n)
        || (s != "" && s[0] == '+' && Digits(s[1..]) && DigitsValue(s[1..]) == n))
  }

  lemma NumeralRead(s: string, n: nat)
    ensures ParseU64(s) == Some(n) <==> Numeral(s, n)
  {
    if s != "" && s[0] == '+' {
      assert !IsDigit(s[0]) && (|s| == 1 ==> s[1..] == "");
    }
  }

  predicate Numerals(texts: seq<string>, p: Path) {
    |texts| == |p| && forall i | 0 <= i < |p| :: p[i].Index? && Numeral(texts[i], p[i].index)
  }

  function Bracketed(texts: seq<string>): string {
    if texts == [] then "" else "[" + texts[0] + "]" + Bracketed(texts[1..])
  }

  /** A name that is no dots and has no slash and no bracket, perhaps none, and positions
      in brackets: at least one of the two. */
  predicate Spells(token: string, name: string, texts: seq<string>, p: Path) {
    && token == name + Bracketed(texts) && Numerals(texts, p) && (name != "" || texts != [])
    && '/' !in name && '[' !in name && ']' !in name && name != "." && name != ".."
  }

  lemma {:induction false} BracketsRead(segs: Path, texts: seq<string>, p: Path)
    requires Numerals(texts, p)
    ensures Indexes(segs, Bracketed(texts)) == Ok(segs + p)
    decreases |texts|
  {
    hide ParseU64, Numeral;
    if texts == [] {
      assert segs + p == segs;
    } else {
      var open, more := "[" + texts[0], Bracketed(texts[1..]);
      var rest := open + "]" + more;
      assert ']' !in open by { NoBracket(texts[0], p[0].index); }
      FirstAfter(open, ']', more);
      assert rest[0] == '[' && rest[1..|open|] == texts[0] && rest[|open| + 1..] == more;
      NumeralRead(texts[0], p[0].index);
      BracketsRead(segs + [p[0]], texts[1..], p[1..]);
      assert segs + [p[0]] + p[1..] == segs + p;
    }
  }

  lemma NoBracket(s: string, n: nat)
    requires Numeral(s, n)
    ensures ']' !in s
  {
    var digits := if Digits(s) then s else s[1..];
    assert forall i | 0 <= i < |digits| :: digits[i] != ']';
    assert s == digits || s == ['+'] + digits;
  }

  lemma {:induction false} BracketsOnly(segs: Path, rest: string) returns (texts: seq<string>, p: Path)
    requires Indexes(segs, rest).Ok?
    ensures rest == Bracketed(texts) && Numerals(texts, p) && Indexes(segs, rest).value == segs + p
    decreases |rest|
  {
    hide Numeral, Numerals, Bracketed, Indexes;
    if rest == "" {
      NoBrackets(segs);
      texts, p := [], [];
      assert segs + p == segs;
    } else {
      var text, n, left := FirstBracket(segs, rest);
      var more, q := BracketsOnly(segs + [Index(n)], left);
      texts, p := [text] + more, [Index(n)] + q;
      NumeralsGrow(text, n, more, q);
      assert segs + [Index(n)] + q == segs + p;
    }
  }

  lemma NoBrackets(segs: Path)
    ensures Numerals([], []) && Bracketed([]) == "" && Indexes(segs, "") == Ok(segs)
  {}

  lemma FirstBracket(segs: Path, rest: string) returns (text: string, n: nat, left: string)
    requires rest != "" && Indexes(segs, rest).Ok?
    ensures rest == "[" + text + "]" + left && Numeral(text, n) && Indexes(segs, rest) == Indexes(segs + [Index(n)], left)
  {
    hide ParseU64, Numeral;
    var close := FirstOf(rest, ']');
    text, left := rest[1..close], rest[close + 1..];
    n := ParseU64(text).value;
    NumeralRead(text, n);
  }

  lemma NumeralsGrow(text: string, n: nat, texts: seq<string>, p: Path)
    requires Numerals(texts, p) && Numeral(text, n)
    ensures Numerals([text] + texts, [Index(n)] + p)
    ensures Bracketed([text] + texts) == "[" + text + "]" + Bracketed(texts)
  {
    hide Numeral;
    assert ([text] + texts)[1..] == texts;
  }

  /** Every text of that form is accepted, and adds the name and the positions. */
  lemma TokenAccepted(segs: Path, token: string, name: string, texts: seq<string>, p: Path)
    requires Spells(token, name, texts, p)
    ensures Token(segs, token) == Ok(segs + (if name == "" then p else [Name(name)] + p))
  {
    hide Indexes, Numeral;
    var tail := Bracketed(texts);
    BracketsRead(segs, texts, p);
    BracketsRead(segs + [Name(name)], texts, p);
    assert segs + [Name(name)] + p == segs + ([Name(name)] + p);
    if texts == [] {
      FirstAfter(name, '[', "");
      assert token == name && p == [] && [Name(name)] + p == [Name(name)];
    } else {
      assert tail[0] == '[';
      FirstAfter(name, '[', tail[1..]);
      assert token == name + ['['] + tail[1..];
      assert token[..|name|] == name && token[|name|..] == tail && token[|name|] == '[';
      assert token != "." && token != "..";
    }
  }

  /** Nothing else is, but the dots. */
  lemma OnlySpelled(segs: Path, token: string) returns (name: string, texts: seq<string>, p: Path)
    requires Token(segs, token).Ok? && '/' !in token && token != "." && token != ".."
    ensures Spells(token, name, texts, p)
  {
    hide Indexes, Numeral;
    var bracket := FirstOf(token, '[');
    name := token[..bracket];
    assert token == name + token[bracket..];
    if bracket == |token| {
      texts, p := [], [];
    } else {
      texts, p := BracketsOnly(if name == "" then segs else segs + [Name(name)], token[bracket..]);
    }
  }

  // ----- dots -------------------------------------------------------------------

  lemma {:induction false} TokensAppend(segs: Path, x: string, y: string)
    ensures Tokens(segs, x + "/" + y) == match Tokens(segs, x) case Ok(next) => Tokens(next, y) case Err(e) => Err(e)
    decreases |x|
  {
    hide Token;
    var i, all := FirstOf(x, '/'), x + "/" + y;
    if i == |x| {
      assert x[..i] == x;
      FirstAfter(x, '/', y);
      assert all[..|x|] == x && all[|x| + 1..] == y;
    } else {
      assert x == x[..i] + ['/'] + x[i + 1..];
      assert all == x[..i] + ['/'] + (x[i + 1..] + "/" + y);
      FirstAfter(x[..i], '/', x[i + 1..] + "/" + y);
      assert all[..i] == x[..i] && all[i + 1..] == x[i + 1..] + "/" + y;
      if Token(segs, x[..i]).Ok? {
        TokensAppend(Token(segs, x[..i]).value, x[i + 1..], y);
      }
    }
  }

  /** After any accepted text, `..` drops the last segment and cannot rise above the
      root, and `.` changes nothing. */
  lemma DotsNormalise(x: string)
    requires x != "" && Parse(x).Ok?
    ensures Parse(x + "/..") == if Parse(x).value == [] then Err(InvalidPath) else Ok(Parent(Parse(x).value))
    ensures Parse(x + "/.") == Parse(x)
  {
    hide TokenSegments, Tokens;
    TokensAppend([], x, "..");
    TokensAppend([], x, ".");
    assert x + "/" + ".." == x + "/.." && x + "/" + "." == x + "/.";
    OneToken(Parse(x).value, "..");
    OneToken(Parse(x).value, ".");
  }

  /** For a name that could stand in a path's text, pushing it is parsing it as a further token. */
  lemma PushIsToken(p: Path, name: string)
    requires name != "" && '/' !in name && '[' !in name && ']' !in name
    ensures Token(p, name) == if name == ".." && p == [] then Err(InvalidPath) else Ok(PushName(p, name))
  {
    FirstAfter(name, '[', "");
  }
}
