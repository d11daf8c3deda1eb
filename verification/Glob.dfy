/** The wildcard matcher of the command-line delete commands
    (src/fastboot/cmd.c): `*` stands for any text, `**` for a star. */
module Glob {

  datatype Token = Lit(c: char) | Wild

  /** Patterns read left to right, a doubled star first. */
  function Tokens(p: string): seq<Token> {
    if p == "" then []
    else if p[0] != '*' then [Lit(p[0])] + Tokens(p[1..])
    else if |p| > 1 && p[1] == '*' then [Lit('*')] + Tokens(p[2..])
    else [Wild] + Tokens(p[1..])
  }

  /** What a token list stands for. */
  ghost predicate Matches(s: string, ts: seq<Token>)
    decreases |ts|
  {
    if ts == [] then s == ""
    else if ts[0].Wild? then exists k :: 0 <= k <= |s| && Matches(s[k..], ts[1..])
    else s != "" && s[0] == ts[0].c && Matches(s[1..], ts[1..])
  }

  function Lits(s: string): (ts: seq<Token>)
    ensures |ts| == |s|
  {
    if s == "" then [] else [Lit(s[0])] + Lits(s[1..])
  }

  lemma {:induction false} MatchLit(s: string, c: char, ts: seq<Token>)
    ensures Matches(s, [Lit(c)] + ts) <==> s != "" && s[0] == c && Matches(s[1..], ts)
  {
    assert ([Lit(c)] + ts)[1..] == ts;
  }

  lemma PrefixCons(s: string, lit: string)
    requires s != "" && lit != ""
    ensures |lit| <= |s| && s[..|lit|] == lit <==>
            s[0] == lit[0] && |lit[1..]| <= |s[1..]| && s[1..][..|lit[1..]|] == lit[1..]
  {
    if |lit| <= |s| {
      assert s[..|lit|] == [s[0]] + s[1..][..|lit| - 1];
      assert lit == [lit[0]] + lit[1..];
    }
  }

  lemma {:induction false} MatchLits(s: string, lit: string, ts: seq<Token>)
    ensures Matches(s, Lits(lit) + ts) <==> |lit| <= |s| && s[..|lit|] == lit && Matches(s[|lit|..], ts)
    decreases |lit|
  {
    if lit == "" {
      assert Lits(lit) + ts == ts && s[0..] == s;
    } else {
      assert Lits(lit) + ts == [Lit(lit[0])] + (Lits(lit[1..]) + ts);
      MatchLit(s, lit[0], Lits(lit[1..]) + ts);
      if s != "" {
        MatchLits(s[1..], lit[1..], ts);
        PrefixCons(s, lit);
        assert |lit| <= |s| ==> s[1..][|lit| - 1..] == s[|lit|..];
      }
    }
  }

  lemma {:induction false} TokensOfRun(p: string, n: nat)
    requires n <= |p| && forall i :: 0 <= i < n ==> p[i] != '*'
    ensures Tokens(p) == Lits(p[..n]) + Tokens(p[n..])
    decreases n
  {
    if n == 0 {
      assert p[0..] == p;
    } else {
      TokensOfRun(p[1..], n - 1);
      assert p[..n][1..] == p[1..][..n - 1] && p[1..][n - 1..] == p[n..];
      assert Lits(p[..n]) == [Lit(p[0])] + Lits(p[..n][1..]);
    }
  }

  /** strchr: the first star at or after `i`, or the end. */
  function NextStar(p: string, i: nat): (k: nat)
    requires i <= |p|
    ensures i <= k <= |p| && (k < |p| ==> p[k] == '*')
    ensures forall j :: i <= j < k ==> p[j] != '*'
    decreases |p| - i
  {
    if i == |p| || p[i] == '*' then i else NextStar(p, i + 1)
  }

  /** The prelude of the matcher: whether the search floats, the literal text up to
      the next star, and the pattern from that star on. */
  function Split(p: string): (bool, string, string)
    requires p != "*"
  {
    if p == "" || p[0] != '*' then
      var k := NextStar(p, 0);
      (false, p[..k], p[k..])
    else if p[1] != '*' then
      var q := p[1..];
      var k := NextStar(q, 0);
      (true, q[..k], q[k..])
    else
      var q := p[1..];
      var k := NextStar(q, 1);
      (false, q[..k], q[k..])
  }

  lemma {:induction false} TokensOfEscape(p: string, n: nat)
    requires |p| >= 2 && p[0] == p[1] == '*' && 1 <= n < |p|
    requires forall i :: 2 <= i <= n ==> p[i] != '*'
    ensures Tokens(p) == Lits(p[1..][..n]) + Tokens(p[1..][n..])
  {
    var q, lit := p[2..], p[1..][..n];
    TokensOfRun(q, n - 1);
    assert q[..n - 1] == lit[1..] && q[n - 1..] == p[1..][n..];
    assert Lits(lit) == [Lit('*')] + Lits(lit[1..]);
  }

  lemma {:induction false} TokensOfSplit(p: string)
    requires p != "*"
    ensures var (wild, lit, rest) := Split(p);
            && |rest| + |lit| <= |p| && (wild ==> lit != "") && (p != "" ==> |rest| < |p|)
            && Tokens(p) == (if wild then [Wild] + (Lits(lit) + Tokens(rest)) else Lits(lit) + Tokens(rest))
  {
    var (wild, lit, rest) := Split(p);
    if p == "" || p[0] != '*' {
      TokensOfRun(p, |lit|);
    } else if p[1] != '*' {
      TokensOfRun(p[1..], |lit|);
    } else {
      assert forall i :: 2 <= i <= |lit| ==> p[i] == p[1..][i - 1];
      TokensOfEscape(p, |lit|);
    }
  }

  /** The literal text and the rest of the pattern match at this point. */
  ghost predicate MatchesAt(s: string, k: nat, lit: string, rest: string) {
    k <= |s| && Matches(s[k..], Lits(lit) + Tokens(rest))
  }

  lemma {:induction false} MatchesBySplit(s: string, p: string)
    requires p != "*"
    ensures var (wild, lit, rest) := Split(p);
            Matches(s, Tokens(p)) <==>
            if wild then exists k :: 0 <= k <= |s| && MatchesAt(s, k, lit, rest) else MatchesAt(s, 0, lit, rest)
  {
    var (wild, lit, rest) := Split(p);
    TokensOfSplit(p);
    var ts := Lits(lit) + Tokens(rest);
    if wild {
      assert Tokens(p)[0] == Wild && Tokens(p)[1..] == ts;
      assert forall k :: 0 <= k <= |s| ==> (MatchesAt(s, k, lit, rest) <==> Matches(s[k..], Tokens(p)[1..]));
    } else {
      assert s[0..] == s;
    }
  }

  /** The backtracking search decides the token semantics, for every text and
      pattern; each recursive pattern is strictly shorter. */
  method IsMatching(param: string, pattern: string) returns (b: bool)
    ensures b <==> Matches(param, Tokens(pattern))
    decreases |pattern|
  {
    if pattern == "*" {
      assert Tokens(pattern)[1..] == [] && param[|param|..] == "";
      return true;
    }
    var (wild, lit, rest) := Split(pattern);
    TokensOfSplit(pattern);
    MatchesBySplit(param, pattern);
    var k: nat := 0;
    while true
      invariant k <= |param| + 1 && (k > 0 ==> wild)
      invariant forall j: nat :: j < k ==> !MatchesAt(param, j, lit, rest)
      decreases |param| + 1 - k
    {
      if |param| < k + |lit| {
        forall j: nat | k <= j <= |param|
          ensures !MatchesAt(param, j, lit, rest)
        {
          MatchLits(param[j..], lit, Tokens(rest));
        }
        return false;
      }
      MatchLits(param[k..], lit, Tokens(rest));
      assert param[k..][..|lit|] == param[k..k + |lit|] && param[k..][|lit|..] == param[k + |lit|..];
      if param[k..k + |lit|] == lit {
        if rest == "" {
          if |param| == k + |lit| {
            assert MatchesAt(param, k, lit, rest);
            return true;
          }
        } else {
          var r := IsMatching(param[k + |lit|..], rest);
          if r {
            assert MatchesAt(param, k, lit, rest);
            return true;
          }
        }
      }
      if !wild {
        return false;
      }
      k := k + 1;
    }
    assert false;
  }

  /** Only the bare star matches the empty text. */
  lemma {:induction false} EmptyTextExactly(p: string)
    ensures Matches("", Tokens(p)) <==> p == "" || p == "*"
  {
    if p == "*" {
      assert Tokens(p)[1..] == [] && ""[0..] == "";
    } else {
      TokensOfSplit(p);
      MatchesBySplit("", p);
      var (wild, lit, rest) := Split(p);
      MatchLits(""[0..], lit, Tokens(rest));
    }
  }
}
