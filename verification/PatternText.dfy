/** The text form of index patterns: path tokens, with `*` standing for any one child. */
module PatternText {
  import opened Basics
  import opened Paths
  import opened PathText
  import opened Patterns

  function Lits(p: Path): (pat: Pattern)
    ensures |pat| == |p| && forall i | 0 <= i < |p| :: pat[i] == Lit(p[i])
  {
    seq(|p|, i requires 0 <= i < |p| => Lit(p[i]))
  }

  function PatternToken(token: string): (r: Result<Pattern>)
    ensures r.Err? ==> r.error == InvalidPath
  {
    if token == "" then Err(InvalidPath)
    else if token == "*" then Ok([Star])
    else match PathText.Parse(token) case Ok(p) => Ok(Lits(p)) case Err(e) => Err(e)
  }

  function PatternTokens(pat: Pattern, s: string): (r: Result<Pattern>)
    ensures r.Err? ==> r.error == InvalidPath
    decreases |s|
  {
    var i := FirstOf(s, '/');
    match PatternToken(s[..i])
    case Err(e) => Err(e)
    case Ok(more) => if i == |s| then Ok(pat + more) else PatternTokens(pat + more, s[i + 1..])
  }

  function ParsePattern(s: string): (r: Result<Pattern>)
    ensures r.Err? ==> r.error == InvalidPath
  {
    if s == "" then Ok([]) else PatternTokens([], s)
  }

  method Parse(s: string) returns (r: Result<Pattern>)
    ensures r == ParsePattern(s)
  {
    var segs: Pattern := [];
    if s == "" {
      return Ok(segs);
    }
    var rest := s;
    while true
      invariant PatternTokens([], s) == PatternTokens(segs, rest)
      decreases |rest|
    {
      var i := FirstOf(rest, '/');
      var token := rest[..i];
      if token == "" {
        return Err(InvalidPath);
      }
      if token == "*" {
        segs := segs + [Star];
      } else {
        var path := FromStr(token);
        if path.Err? {
          return Err(path.error);
        }
        segs := segs + Lits(path.value);
      }
      if i == |rest| {
        return Ok(segs);
      }
      rest := rest[i + 1..];
    }
  }

  /** The position is a name of its own, spelled as the wildcard is. */
  predicate Wild(p: Path, i: nat)
    requires i < |p|
  {
    p[i] == Name("*") && (i + 1 == |p| || p[i + 1].Name?)
  }

  /** The pattern a path's text spells: wildcards where it has them, itself elsewhere. */
  function Spelled(p: Path): (pat: Pattern)
    ensures |pat| == |p| && forall i | 0 <= i < |p| :: pat[i] == if Wild(p, i) then Star else Lit(p[i])
  {
    seq(|p|, i requires 0 <= i < |p| => if Wild(p, i) then Star else Lit(p[i]))
  }

  lemma {:induction false} PatternPrint(pat: Pattern, p: Path)
    requires p != [] && GoodPath(p)
    ensures PatternTokens(pat, PrintFrom(p, true)) == Ok(pat + Spelled(p))
    decreases |p|
  {
    hide Token, PrintFrom, GoodPath, PathText.Parse, PatternToken;
    var n := 1 + IndexRun(p[1..]);
    var token := PrintFrom(p[..n], true);
    forall i | 1 <= i < n ensures p[..n][i].Index? { assert p[i] == p[1..][i - 1]; }
    GoodParts(p, n);
    TokenPrint([], p[..n]);
    ChunkToken(p[..n]);
    PrintSplit(p, n, true);
    if n == |p| {
      assert p[..n] == p && p[n..] == [];
      PrintNothing();
      NoSlash(token);
      assert token[..|token|] == token;
    } else {
      assert p[n] == p[1..][n - 1];
      SlashFirst(p[n..]);
      var more := PrintFrom(p[n..], true);
      assert PrintFrom(p, true) == token + ['/'] + more;
      FirstAfter(token, '/', more);
      assert (token + ['/'] + more)[..|token|] == token && (token + ['/'] + more)[|token| + 1..] == more;
      PatternPrint(pat + Spelled(p[..n]), p[n..]);
      SpelledSplit(p, n);
      assert pat + Spelled(p[..n]) + Spelled(p[n..]) == pat + Spelled(p);
    }
  }

  lemma SpelledSplit(p: Path, n: nat)
    requires 0 < n < |p| && p[n].Name?
    ensures Spelled(p) == Spelled(p[..n]) + Spelled(p[n..])
  {
    forall i | 0 <= i < |p| ensures Spelled(p)[i] == (Spelled(p[..n]) + Spelled(p[n..]))[i] {
      if i < n { assert Wild(p[..n], i) <==> Wild(p, i); } else { assert Wild(p[n..], i - n) <==> Wild(p, i); }
    }
  }

  /** A name with its positions is one token: the wildcard when the name is that and alone. */
  lemma ChunkToken(head: Path)
    requires head != [] && GoodPath(head) && forall i | 1 <= i < |head| :: head[i].Index?
    ensures PatternToken(PrintFrom(head, true)) == Ok(Spelled(head))
  {
    hide Token, GoodPath, PathText.Parse, PrintFrom, Spelled, Wild, Lits;
    TokenPrint([], head);
    assert [] + head == head;
    OneToken([], PrintFrom(head, true));
    ParsesAs(PrintFrom(head, true));
    StarToken(head);
    SpelledChunk(head);
  }

  lemma SpelledChunk(head: Path)
    requires head != [] && forall i | 1 <= i < |head| :: head[i].Index?
    ensures Spelled(head) == if head == [Name("*")] then [Star] else Lits(head)
  {}

  lemma ParsesAs(token: string)
    requires token != ""
    ensures PathText.Parse(token) == Tokens([], token)
  {}

  lemma StarToken(head: Path)
    requires head != [] && forall i | 1 <= i < |head| :: head[i].Index?
    ensures PrintFrom(head, true) == "*" <==> head == [Name("*")]
  {
    if head[0].Index? {
      StartsBracket(head, true);
    } else if |head| > 1 {
      StartsBracket(head[1..], false);
      HeadText(head, true);
      assert |PrintFrom(head, true)| > 2;
    } else {
      HeadText(head, true);
      PrintNothing();
      assert head == [head[0]] && head[1..] == [] && PrintFrom(head, true) == head[0].name;
    }
  }

  /** A path's text, read as a pattern, selects the places that differ from the path at
      most where it has a name `*` standing alone: there any one segment will do. */
  lemma PathIsPattern(p: Path, q: Path)
    requires p != [] && GoodPath(p)
    ensures ParsePattern(Print(p)).Ok?
    ensures Matches(ParsePattern(Print(p)).value, q) <==> |q| == |p| && forall i | 0 <= i < |p| :: Wild(p, i) || q[i] == p[i]
  {
    hide Wild, PatternTokens, PrintFrom, GoodPath;
    PrintNotEmpty(p);
    PatternPrint([], p);
    assert [] + Spelled(p) == Spelled(p);
    if Matches(Spelled(p), q) {
      forall i | 0 <= i < |p| ensures Wild(p, i) || q[i] == p[i] { assert SegMatches(Spelled(p)[i], q[i]); }
    }
  }

  /** A path's text followed by a wildcard selects the path's children, each of them. */
  lemma ChildrenPattern(p: Path, q: Path)
    requires p != [] && GoodPath(p) && forall i | 0 <= i < |p| :: p[i] != Name("*")
    ensures ParsePattern(Print(p) + "/*").Ok?
    ensures Matches(ParsePattern(Print(p) + "/*").value, q) <==> q != [] && Parent(q) == p
  {
    hide GoodSegment, Matches, PrintFrom, ParsePattern;
    var full := p + [Name("*")];
    StarIsGood();
    assert GoodPath(full);
    PrintSplit(full, |p|, true);
    assert full[..|p|] == p && full[|p|..] == [Name("*")];
    LastStar();
    PathIsPattern(full, q);
    forall i | 0 <= i < |full| ensures Wild(full, i) <==> i == |p| {}
    ChildOf(p, q);
  }

  lemma ChildOf(p: Path, q: Path)
    ensures q != [] && Parent(q) == p <==> |q| == |p| + 1 && forall i | 0 <= i < |p| :: q[i] == p[i]
  {
    if q != [] && Parent(q) == p { assert q == p + [Last(q)]; }
    if |q| == |p| + 1 && forall i | 0 <= i < |p| :: q[i] == p[i] { assert Parent(q) == p; }
  }

  lemma StarIsGood()
    ensures GoodSegment(Name("*"))
  {}

  lemma LastStar()
    ensures PrintFrom([Name("*")], false) == "/*"
  {
    PrintNothing();
    assert [Name("*")][1..] == [];
  }

  /** A wildcard alone selects everything one step below the root, and no text the root. */
  lemma TopPatterns(q: Path)
    ensures ParsePattern("*").Ok? && ParsePattern("").Ok?
    ensures Matches(ParsePattern("*").value, q) <==> |q| == 1
    ensures Matches(ParsePattern("").value, q) <==> q == []
  {
    NoSlash("*");
    assert "*"[..1] == "*" && [] + [Star] == [Star];
  }
}
