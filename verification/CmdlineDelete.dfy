/** Deleting the parameters that match a pattern from a stored text
    (src/fastboot/cmd.c): find a parameter, match it, cut it out, go on. */
module CmdlineDelete {
  import opened Basics
  import opened Glob
  import opened OemCmdline

  predicate IsQuote(c: char, b: bool) {
    c == '"' || (b && c == '\'')
  }

  // ---- where a parameter ends

  /** The open quote after `c`, or NUL: only the quote that opened closes. */
  function Quoting(q: char, c: char, b: bool): char {
    if !IsQuote(c, b) then q else if q == c then NUL else if q == NUL then c else q
  }

  predicate Stops(q: char, c: char, b: bool) {
    !IsQuote(c, b) && q == NUL && IsSeparator(c, b)
  }

  /** The first separator outside quotes, or the end of the text. */
  function End(t: string, q: char, b: bool): (e: nat)
    ensures e <= |t|
    ensures e < |t| ==> IsSeparator(t[e], b)
    decreases |t|
  {
    if t == "" || Stops(q, t[0], b) then 0 else 1 + End(t[1..], Quoting(q, t[0], b), b)
  }

  /** The quote open after all of `t`. */
  function Open(t: string, q: char, b: bool): char
    decreases |t|
  {
    if t == "" then q else Open(t[1..], Quoting(q, t[0], b), b)
  }

  /** What the end means: it is a separator with no quote open, and every earlier
      separator is inside quotes. */
  lemma {:induction false} EndIsFirstOutsideQuotes(t: string, q: char, b: bool, j: nat)
    requires j <= End(t, q, b)
    ensures j == End(t, q, b) < |t| ==> IsSeparator(t[j], b) && !IsQuote(t[j], b) && Open(t[..j], q, b) == NUL
    ensures j < End(t, q, b) && IsSeparator(t[j], b) && !IsQuote(t[j], b) ==> Open(t[..j], q, b) != NUL
    decreases |t|
  {
    if j > 0 {
      EndIsFirstOutsideQuotes(t[1..], Quoting(q, t[0], b), b, j - 1);
      assert t[..j][1..] == t[1..][..j - 1];
    }
  }

  // ---- what quoting means

  /** A character that is no quote, or a run from a quote to the next such quote. */
  ghost predicate IsPiece(p: string, b: bool) {
    var quotes := if b then {'"', '\''} else {'"'};
    || (|p| == 1 && p[0] !in quotes)
    || (|p| >= 2 && p[0] in quotes && p[|p| - 1] == p[0] && p[0] !in p[1..|p| - 1])
  }

  function Flat(ps: seq<string>): string {
    if ps == [] then "" else ps[0] + Flat(ps[1..])
  }

  ghost predicate Pieces(ps: seq<string>, t: string, b: bool) {
    Flat(ps) == t && forall i :: 0 <= i < |ps| ==> IsPiece(ps[i], b)
  }

  /** All quotes are closed: the text is made of such pieces. */
  ghost predicate Closed(t: string, b: bool) {
    exists ps :: Pieces(ps, t, b)
  }

  lemma {:induction false} ClosedEmpty(b: bool)
    ensures Closed("", b)
  {
    assert Pieces([], "", b);
  }

  lemma {:induction false} ClosedCons(p: string, u: string, b: bool)
    requires IsPiece(p, b) && Closed(u, b)
    ensures Closed(p + u, b)
  {
    var ps :| Pieces(ps, u, b);
    assert ([p] + ps)[1..] == ps;
    assert Pieces([p] + ps, p + u, b);
  }

  lemma {:induction false} ClosedFirst(t: string, b: bool) returns (p: string, u: string)
    requires Closed(t, b) && t != ""
    ensures t == p + u && IsPiece(p, b) && Closed(u, b)
  {
    var ps :| Pieces(ps, t, b);
    p, u := ps[0], Flat(ps[1..]);
    assert Pieces(ps[1..], u, b);
  }

  /** The open quote `q` is closed at `n`, and what follows is closed. */
  ghost predicate ClosesAt(t: string, q: char, b: bool, n: nat) {
    n < |t| && t[n] == q && q !in t[..n] && Closed(t[n + 1..], b)
  }

  /** A text after its first character, which is a quote or is not. */
  lemma {:induction false} ClosedPlain(t: string, b: bool)
    requires t != "" && !IsQuote(t[0], b)
    ensures Closed(t, b) <==> Closed(t[1..], b)
  {
    if Closed(t[1..], b) {
      ClosedCons([t[0]], t[1..], b);
      assert t == [t[0]] + t[1..];
    }
    if Closed(t, b) {
      var p, u := ClosedFirst(t, b);
      assert p[0] == t[0] && u == t[1..];
    }
  }

  lemma {:induction false} ClosedQuoted(t: string, b: bool)
    requires t != "" && IsQuote(t[0], b)
    ensures Closed(t, b) <==> exists n :: ClosesAt(t[1..], t[0], b, n)
  {
    var r := t[1..];
    if n: nat :| ClosesAt(r, t[0], b, n) {
      var p := t[..n + 2];
      assert p[|p| - 1] == r[n] && p[1..|p| - 1] == r[..n];
      ClosedCons(p, r[n + 1..], b);
      assert t == p + r[n + 1..];
    }
    if Closed(t, b) {
      var p, u := ClosedFirst(t, b);
      var n := |p| - 2;
      assert p[0] == t[0];
      assert r == p[1..] + u;
      assert r[n] == p[n + 1] && r[..n] == p[1..|p| - 1] && r[n + 1..] == u;
      assert ClosesAt(r, t[0], b, n);
    }
  }

  lemma {:induction false} OpenIsClosed(t: string, b: bool)
    ensures Open(t, NUL, b) == NUL <==> Closed(t, b)
    decreases |t|
  {
    if t == "" {
      ClosedEmpty(b);
    } else if IsQuote(t[0], b) {
      OpenQuoted(t[1..], t[0], b);
      ClosedQuoted(t, b);
    } else {
      OpenIsClosed(t[1..], b);
      ClosedPlain(t, b);
    }
  }

  lemma {:induction false} OpenQuoted(t: string, q: char, b: bool)
    requires IsQuote(q, b)
    ensures Open(t, q, b) == NUL <==> exists n :: ClosesAt(t, q, b, n)
    decreases |t|
  {
    if t != "" {
      var r := t[1..];
      if t[0] == q {
        OpenIsClosed(r, b);
        assert ClosesAt(t, q, b, 0) <==> Closed(r, b);
      } else {
        OpenQuoted(r, q, b);
        if n: nat :| ClosesAt(r, q, b, n) {
          CloseLater(t, q, b, n);
        }
        if n: nat :| ClosesAt(t, q, b, n) {
          assert n > 0;
          CloseLater(t, q, b, n - 1);
        }
      }
    }
  }

  lemma CloseLater(t: string, q: char, b: bool, n: nat)
    requires t != "" && t[0] != q
    ensures ClosesAt(t[1..], q, b, n) <==> ClosesAt(t, q, b, n + 1)
  {
    if n < |t[1..]| {
      assert t[..n + 1] == [t[0]] + t[1..][..n];
      assert t[1..][n + 1..] == t[n + 2..];
    }
  }

  /** A separator with nothing open before it: white space in the command line, a line
      end or a semicolon in the bootconfig text. */
  ghost predicate EndsAt(t: string, b: bool, i: nat)
    requires i < |t|
  {
    Separates(t[i], b) && Closed(t[..i], b)
  }

  predicate Separates(c: char, b: bool) {
    c in (if b then {'\n', ';'} else {' ', '\t', '\n', 11 as char, 12 as char, '\r'})
  }

  lemma SeparatesIs(c: char, b: bool)
    ensures Separates(c, b) <==> IsSeparator(c, b) && !IsQuote(c, b)
  {
    if !b && IsSpace(c) && c != ' ' {
      assert c as int == 9 || c as int == 10 || c as int == 11 || c as int == 12 || c as int == 13;
    }
  }

  /** A parameter ends at the first such place, and at the end of the text when there
      is none. */
  lemma {:induction false} EndExactly(t: string, b: bool, j: nat)
    requires j <= |t|
    ensures j == End(t, NUL, b) <==> (j < |t| ==> EndsAt(t, b, j)) && forall i :: 0 <= i < j ==> !EndsAt(t, b, i)
  {
    var e := End(t, NUL, b);
    forall i | 0 <= i <= e && i < |t|
      ensures EndsAt(t, b, i) <==> i == e
    {
      EndIsFirstOutsideQuotes(t, NUL, b, i);
      OpenIsClosed(t[..i], b);
      SeparatesIs(t[i], b);
    }
    if j < e {
      assert !EndsAt(t, b, j);
    } else if e < j {
      assert EndsAt(t, b, e);
    }
  }

  /** What lies behind the end does not matter. */
  lemma {:induction false} EndIsLocal(t: string, u: string, q: char, b: bool)
    requires End(t, q, b) < |t|
    ensures End(t[..End(t, q, b) + 1] + u, q, b) == End(t, q, b)
    decreases |t|
  {
    var e := End(t, q, b);
    var s := t[..e + 1] + u;
    if e > 0 {
      EndIsLocal(t[1..], u, Quoting(q, t[0], b), b);
      assert s[1..] == t[1..][..e] + u;
    }
  }

  // ---- the parameters of a text, and the filter

  /** The parameters, without their delimiters; the last one has none. */
  function Params(t: string, b: bool): (ps: seq<string>)
    ensures ps != []
    decreases |t|
  {
    var e := End(t, NUL, b);
    if e == |t| then [t] else [t[..e]] + Params(t[e + 1..], b)
  }

  /** The delimiter after each parameter but the last. */
  function Delimiters(t: string, b: bool): (ds: string)
    ensures |ds| + 1 == |Params(t, b)|
    decreases |t|
  {
    var e := End(t, NUL, b);
    if e == |t| then "" else [t[e]] + Delimiters(t[e + 1..], b)
  }

  /** Parameters and delimiters alternating. */
  function Join(ps: seq<string>, ds: string): string
    requires |ps| == |ds| + 1
    decreases |ds|
  {
    if ds == "" then ps[0] else ps[0] + [ds[0]] + Join(ps[1..], ds[1..])
  }

  /** Which parameters a pattern selects. */
  ghost function Selected(pattern: string): string -> bool {
    p => Matches(p, Tokens(pattern))
  }

  /** The text without the matching parameters: each goes with its delimiter. */
  ghost function Kept(t: string, hit: string -> bool, b: bool): string
    decreases |t|
  {
    var e := End(t, NUL, b);
    if e == |t| then (if hit(t) then "" else t)
    else (if hit(t[..e]) then "" else t[..e + 1]) + Kept(t[e + 1..], hit, b)
  }

  /** The non-matching parameters, with the last place filled by the empty
      parameter when the last one matches. */
  ghost function Misses(ps: seq<string>, hit: string -> bool): (r: seq<string>)
    requires ps != []
    ensures r != []
    decreases |ps|
  {
    if |ps| == 1 then (if hit(ps[0]) then [""] else ps)
    else if hit(ps[0]) then Misses(ps[1..], hit)
    else [ps[0]] + Misses(ps[1..], hit)
  }

  /** `p` is a whole parameter with its delimiter `d`. */
  ghost predicate Piece(p: string, d: char, b: bool) {
    End(p + [d], NUL, b) == |p|
  }

  lemma {:induction false} TakePiece(t: string, b: bool) returns (p: string, d: char, u: string)
    requires End(t, NUL, b) < |t|
    ensures t == p + [d] + u && Piece(p, d, b) && |p| == End(t, NUL, b) && IsSeparator(d, b)
  {
    var e := End(t, NUL, b);
    p, d, u := t[..e], t[e], t[e + 1..];
    EndIsLocal(t, "", NUL, b);
    assert t[..e + 1] + "" == p + [d];
    assert t == t[..e] + [t[e]] + t[e + 1..];
    assert End(p + [d], NUL, b) == e;
  }

  lemma {:induction false} EndOfPiece(p: string, d: char, u: string, b: bool)
    requires Piece(p, d, b)
    ensures End(p + [d] + u, NUL, b) == |p|
    ensures (p + [d] + u)[..|p|] == p && (p + [d] + u)[|p|] == d
    ensures (p + [d] + u)[..|p| + 1] == p + [d] && (p + [d] + u)[|p| + 1..] == u
  {
    EndIsLocal(p + [d], u, NUL, b);
    assert (p + [d])[..|p| + 1] == p + [d];
  }

  lemma {:induction false} KeptOfPiece(p: string, d: char, u: string, hit: string -> bool, b: bool)
    requires Piece(p, d, b)
    ensures Kept(p + [d] + u, hit, b) == if hit(p) then Kept(u, hit, b) else p + [d] + Kept(u, hit, b)
  {
    EndOfPiece(p, d, u, b);
    assert "" + Kept(u, hit, b) == Kept(u, hit, b);
  }

  lemma {:induction false} ParamsOfPiece(p: string, d: char, u: string, b: bool)
    requires Piece(p, d, b)
    ensures Params(p + [d] + u, b) == [p] + Params(u, b)
  {
    EndOfPiece(p, d, u, b);
  }

  lemma {:induction false} JoinOfPiece(p: string, d: char, u: string, b: bool)
    requires Piece(p, d, b)
    ensures Delimiters(p + [d] + u, b) == [d] + Delimiters(u, b)
    ensures Join([p] + Params(u, b), [d] + Delimiters(u, b)) == p + [d] + Join(Params(u, b), Delimiters(u, b))
  {
    EndOfPiece(p, d, u, b);
    assert ([p] + Params(u, b))[1..] == Params(u, b) && ([d] + Delimiters(u, b))[1..] == Delimiters(u, b);
  }

  /** Parameters and delimiters together are the text. */
  lemma {:induction false} JoinParams(t: string, b: bool)
    ensures Join(Params(t, b), Delimiters(t, b)) == t
    decreases |t|
  {
    if End(t, NUL, b) < |t| {
      var p, d, u := TakePiece(t, b);
      JoinOfPiece(p, d, u, b);
      ParamsOfPiece(p, d, u, b);
      JoinParams(u, b);
    }
  }

  lemma {:induction false} MissesFirst(p: string, ps: seq<string>, hit: string -> bool)
    requires ps != []
    ensures Misses([p] + ps, hit) == if hit(p) then Misses(ps, hit) else [p] + Misses(ps, hit)
  {
    assert ([p] + ps)[1..] == ps;
  }

  /** Removing parameters does not retokenise the rest, quotes included: the
      parameters of what is left are exactly the non-matching ones, in order. */
  lemma {:induction false} KeptParams(t: string, hit: string -> bool, b: bool)
    ensures Params(Kept(t, hit, b), b) == Misses(Params(t, b), hit)
    decreases |t|
  {
    if End(t, NUL, b) == |t| {
      assert Params("", b) == [""];
    } else {
      var p, d, u := TakePiece(t, b);
      KeptOfPiece(p, d, u, hit, b);
      ParamsOfPiece(p, d, u, b);
      MissesFirst(p, Params(u, b), hit);
      KeptParams(u, hit, b);
      ParamsOfPiece(p, d, Kept(u, hit, b), b);
    }
  }

  /** Filtering again changes nothing, unless the pattern matches the empty
      parameter. */
  lemma {:induction false} KeptIsIdempotent(t: string, hit: string -> bool, b: bool)
    requires !hit("")
    ensures Kept(Kept(t, hit, b), hit, b) == Kept(t, hit, b)
    decreases |t|
  {
    if End(t, NUL, b) == |t| {
      EndOfEmpty(hit, b);
    } else {
      var p, d, u := TakePiece(t, b);
      KeptOfPiece(p, d, u, hit, b);
      KeptIsIdempotent(u, hit, b);
      KeptOfPiece(p, d, Kept(u, hit, b), hit, b);
    }
  }

  lemma {:induction false} KeptLength(t: string, hit: string -> bool, b: bool)
    ensures |Kept(t, hit, b)| <= |t|
    decreases |t|
  {
    if End(t, NUL, b) < |t| {
      KeptLength(t[End(t, NUL, b) + 1..], hit, b);
    }
  }

  lemma {:induction false} KeptIsEnded(t: string, hit: string -> bool, b: bool)
    requires Ended(t, b)
    ensures Ended(Kept(t, hit, b), b)
    decreases |t|
  {
    if End(t, NUL, b) < |t| {
      var p, d, u := TakePiece(t, b);
      KeptOfPiece(p, d, u, hit, b);
      assert u == t[|p| + 1..];
      EndedSuffix(t, |p| + 1, b);
      KeptIsEnded(u, hit, b);
      EndedJoin(p + [d], Kept(u, hit, b), b);
    }
  }

  lemma EndedSuffix(t: string, n: nat, b: bool)
    requires n <= |t| && Ended(t, b)
    ensures Ended(t[n..], b)
  {
  }

  lemma EndedJoin(s: string, u: string, b: bool)
    requires Ended(s, b) && Ended(u, b)
    ensures Ended(s + u, b)
  {
  }

  lemma {:induction false} KeptLast(t: string, hit: string -> bool, b: bool)
    requires End(t, NUL, b) == |t|
    ensures Kept(t, hit, b) == if hit(t) then "" else t
  {
  }

  // ---- the delete loop

  /** The text before and from the loop's position. */
  datatype Pass = Finished(text: string) | Again(pre: string, rest: string)

  /** What a pass does: cut a matching parameter out, with its delimiter unless it
      is the last, and stay; or move past the delimiter; or finish. */
  ghost function OnePass(pre: string, rest: string, hit: string -> bool, b: bool): Pass {
    var e := End(rest, NUL, b);
    if e == |rest| then (if hit(rest) then Again(pre, "") else Finished(pre + rest))
    else if hit(rest[..e]) then Again(pre, rest[e + 1..])
    else Again(pre + rest[..e + 1], rest[e + 1..])
  }

  ghost function Loop(pre: string, rest: string, hit: string -> bool, b: bool, fuel: nat): Pass
    decreases fuel
  {
    if fuel == 0 then Again(pre, rest) else
    var p := OnePass(pre, rest, hit, b);
    if p.Finished? then p else Loop(p.pre, p.rest, hit, b, fuel - 1)
  }

  /** A pass keeps what the text filters to. */
  lemma {:induction false} PassKeeps(pre: string, rest: string, hit: string -> bool, b: bool)
    ensures var p := OnePass(pre, rest, hit, b);
            pre + Kept(rest, hit, b) == if p.Finished? then p.text else p.pre + Kept(p.rest, hit, b)
  {
    if End(rest, NUL, b) == |rest| {
      KeptLast(rest, hit, b);
      EndOfEmpty(hit, b);
    } else {
      var p, d, u := TakePiece(rest, b);
      assert rest[..|p|] == p && rest[..|p| + 1] == p + [d] && rest[|p| + 1..] == u;
      KeptOfPiece(p, d, u, hit, b);
      Assoc(pre, p + [d], Kept(u, hit, b));
    }
  }

  lemma EndOfEmpty(hit: string -> bool, b: bool)
    ensures Kept("", hit, b) == ""
  {
  }

  /** Each pass leaves less to do, unless the empty last parameter matches. */
  lemma {:induction false} PassProgress(pre: string, rest: string, hit: string -> bool, b: bool)
    requires !hit("")
    ensures var p := OnePass(pre, rest, hit, b); p.Finished? || |p.rest| < |rest|
  {
  }

  lemma {:induction false} LoopFinishes(pre: string, rest: string, hit: string -> bool, b: bool, fuel: nat)
    requires !hit("") && |rest| < fuel
    ensures Loop(pre, rest, hit, b, fuel) == Finished(pre + Kept(rest, hit, b))
    decreases fuel
  {
    PassKeeps(pre, rest, hit, b);
    PassProgress(pre, rest, hit, b);
    var p := OnePass(pre, rest, hit, b);
    if p.Again? {
      LoopFinishes(p.pre, p.rest, hit, b, fuel - 1);
    }
  }

  /** When everything matches the loop never finishes. */
  lemma {:induction false} AllMatchingNeverFinishes(pre: string, rest: string, hit: string -> bool, b: bool, fuel: nat)
    requires forall p :: hit(p)
    ensures Loop(pre, rest, hit, b, fuel).Again?
    decreases fuel
  {
    if fuel > 0 {
      var p := OnePass(pre, rest, hit, b);
      assert p.Again?;
      AllMatchingNeverFinishes(p.pre, p.rest, hit, b, fuel - 1);
    }
  }

  lemma {:induction false} StarSelectsAll(p: string)
    ensures Selected("*")(p)
  {
    assert Tokens("*")[0] == Wild && Tokens("*")[1..] == [];
    assert p[|p|..] == "";
  }

  /** The loop over a whole text finishes, with the filtered text, exactly when the
      pattern is not the bare star: the empty last parameter then matches again
      every time. */
  lemma {:induction false} LoopFinishesExactly(t: string, pattern: string, b: bool)
    requires pattern != ""
    ensures (exists fuel: nat :: Loop("", t, Selected(pattern), b, fuel).Finished?) <==> pattern != "*"
    ensures pattern != "*" ==> Loop("", t, Selected(pattern), b, |t| + 1) == Finished(Kept(t, Selected(pattern), b))
  {
    var hit := Selected(pattern);
    if pattern == "*" {
      forall p {
        StarSelectsAll(p);
      }
      forall fuel: nat
        ensures !Loop("", t, hit, b, fuel).Finished?
      {
        AllMatchingNeverFinishes("", t, hit, b, fuel);
      }
    } else {
      EmptyTextExactly(pattern);
      LoopFinishes("", t, hit, b, |t| + 1);
      assert "" + Kept(t, hit, b) == Kept(t, hit, b);
    }
  }

  // ---- the loop on the record

  /** The filter on a stored text: what follows an interior NUL stays. */
  ghost function KeptStored(t: string, hit: string -> bool, b: bool): string {
    Kept(t[..FirstNul(t)], hit, b) + t[FirstNul(t)..]
  }

  lemma {:induction false} KeptStoredEnded(t: string, hit: string -> bool, b: bool)
    requires Ended(t, b)
    ensures Ended(KeptStored(t, hit, b), b) && |KeptStored(t, hit, b)| <= |t|
  {
    var k := FirstNul(t);
    var front, back := t[..k], t[k..];
    KeptLength(front, hit, b);
    EndedSuffix(t, k, b);
    if k == |t| {
      assert front == t && back == "";
      KeptIsEnded(t, hit, b);
      EndedJoin(Kept(front, hit, b), back, b);
    } else {
      EndedBehind(Kept(front, hit, b), back, b);
    }
  }

  lemma EndedBehind(s: string, u: string, b: bool)
    requires u != "" && Ended(u, b)
    ensures Ended(s + u, b)
  {
  }

  method IsSelected(param: string, arg: string) returns (r: bool)
    ensures r == Selected(arg)(param)
  {
    r := IsMatching(param, arg);
  }

  lemma {:induction false} EndStep(t: string, i: nat, q: char, b: bool)
    requires i < |t|
    ensures End(t[i..], q, b) == if Stops(q, t[i], b) then 0 else 1 + End(t[i + 1..], Quoting(q, t[i], b), b)
  {
    assert t[i..][1..] == t[i + 1..];
  }

  /** cmd_find_end, on text that lies in the buffer up to a NUL. */
  method FindEnd(data: array<char>, at: nat, b: bool, ghost rest: string) returns (e: nat)
    requires at + |rest| < data.Length && data[at..at + |rest|] == rest
    requires NulFree(rest) && data[at + |rest|] == NUL
    ensures e == at + End(rest, NUL, b)
  {
    var inQuote := NUL;
    e := at;
    ghost var i: nat := 0;
    assert rest[0..] == rest;
    while data[e] != NUL
      invariant e == at + i && i <= |rest|
      invariant i + End(rest[i..], inQuote, b) == End(rest, NUL, b)
      decreases |rest| - i
    {
      var c := data[e];
      assert i < |rest| && c == rest[i];
      EndStep(rest, i, inQuote, b);
      if IsQuote(c, b) {
        if inQuote == c {
          inQuote := NUL;
        } else if inQuote == NUL {
          inQuote := c;
        }
      } else if inQuote == NUL && IsSeparator(c, b) {
        return;
      }
      e, i := e + 1, i + 1;
    }
    assert i == |rest|;
  }

  /** The part of a stored text from the loop's position to the next NUL. */
  lemma RestInBuffer(d: string, base: nat, pre: string, rest: string, tail: string)
    requires base + |pre + rest + tail| < |d| && d[base..base + |pre + rest + tail|] == pre + rest + tail
    requires d[base + |pre + rest + tail|] == NUL && (tail != "" ==> tail[0] == NUL)
    ensures d[base + |pre| + |rest|] == NUL && d[base + |pre|..base + |pre| + |rest|] == rest
  {
    var t := pre + rest + tail;
    assert forall i {:trigger rest[i]} :: 0 <= i < |rest| ==> d[base + |pre| + i] == t[|pre| + i] == rest[i];
    assert tail != "" ==> d[base + |pre| + |rest|] == t[|pre| + |rest|] == tail[0];
  }

  /** The loop's state: the text before the position, from there to the NUL at
      hand, and what lies behind it. */
  ghost predicate Midway(r: Record, t0: Texts, b: bool, pre: string, rest: string, tail: string)
    reads r, r.data
  {
    && r.Framed() && r.magic == MAGIC && r.version == 0
    && r.Value() == t0.With(b, pre + rest + tail)
    && NulFree(rest) && (tail != "" ==> tail[0] == NUL)
  }

  datatype Found = Found(end: nat, param: string, last: bool)

  ghost function Expected(rest: string, b: bool): Found {
    var e := End(rest, NUL, b);
    Found(e, rest[..e], e == |rest|)
  }

  /** The parameter at a place in the buffer. */
  method FindParam(data: array<char>, at: nat, b: bool, ghost rest: string) returns (f: Found)
    requires at + |rest| < data.Length && data[at..at + |rest|] == rest
    requires NulFree(rest) && data[at + |rest|] == NUL
    ensures f == Expected(rest, b)
  {
    var e := FindEnd(data, at, b, rest);
    assert forall i {:trigger rest[i]} :: 0 <= i < |rest| ==> data[at + i] == rest[i];
    assert data[at..e] == rest[..e - at];
    f := Found(e - at, data[at..e], data[e] == NUL);
  }

  method NextParam(r: Record, pos: nat, b: bool, ghost t0: Texts, ghost pre: string, ghost rest: string, ghost tail: string)
    returns (f: Found)
    requires Midway(r, t0, b, pre, rest, tail) && pos == |pre|
    ensures f == Expected(rest, b)
  {
    var base := if b then r.cmdlineLen else 0;
    ghost var t := pre + rest + tail;
    assert r.Value().Half(b) == t;
    assert r.data[base + |t|] == NUL && r.data[..][base..base + |t|] == t;
    RestInBuffer(r.data[..], base, pre, rest, tail);
    assert r.data[base + pos..base + pos + |rest|] == r.data[..][base + pos..base + pos + |rest|];
    f := FindParam(r.data, base + pos, b, rest);
  }

  lemma DeletedMidway(t: Texts, t0: Texts, b: bool, pre: string, rest: string, tail: string, len: nat)
    requires t == t0.With(b, pre + rest + tail) && len <= |rest|
    ensures InText(t, |pre|, len, b)
    ensures OemCmdline.Deleted(t, |pre|, len, b) == t0.With(b, pre + rest[len..] + tail)
  {
    var s := pre + rest + tail;
    assert t.Half(b) == s;
    assert s[..|pre|] + s[|pre| + len..] == pre + rest[len..] + tail;
  }

  /** Cut `len` characters out at the loop's position: never an error. */
  method CutHere(r: Record, pos: nat, len: nat, b: bool,
                 ghost t0: Texts, ghost pre: string, ghost rest: string, ghost tail: string)
    returns (ok: bool)
    requires Midway(r, t0, b, pre, rest, tail) && pos == |pre| && len <= |rest|
    modifies r, r.data
    ensures ok && Midway(r, t0, b, pre, rest[len..], tail)
  {
    DeletedMidway(r.Value(), t0, b, pre, rest, tail, len);
    ok := r.DeleteCmd(pos, len, b);
  }

  /** Moving past a parameter leaves the text as it is. */
  lemma MoveOn(pre: string, rest: string, tail: string, n: nat)
    requires n <= |rest|
    ensures (pre + rest[..n]) + rest[n..] + tail == pre + rest + tail
  {
    assert rest[..n] + rest[n..] == rest;
  }

  /** One pass of the loop, on the record. */
  method DeletePass(r: Record, pos: nat, arg: string, b: bool,
                    ghost t0: Texts, ghost pre: string, ghost rest: string, ghost tail: string)
    returns (ok: bool, more: bool, deleted: bool, next: nat, ghost pre': string, ghost rest': string)
    requires Midway(r, t0, b, pre, rest, tail) && pos == |pre|
    modifies r, r.data
    ensures ok && Midway(r, t0, b, pre', rest', tail) && next == |pre'|
    ensures OnePass(pre, rest, Selected(arg), b) == if more then Again(pre', rest') else Finished(pre' + rest')
    ensures !deleted ==> unchanged(r) && unchanged(r.data) && |pre'| + |rest'| == |pre| + |rest|
    ensures deleted ==> more && (rest != "" ==> |pre'| + |rest'| < |pre| + |rest|)
  {
    var f := NextParam(r, pos, b, t0, pre, rest, tail);
    assert f.last ==> f.param == rest;
    var matching := IsSelected(f.param, arg);
    ok, pre', rest' := true, pre, rest;
    if matching {
      var len := if f.last then f.end else f.end + 1;
      ok := CutHere(r, pos, len, b, t0, pre, rest, tail);
      more, deleted, next, rest' := true, true, pos, rest[len..];
    } else if f.last {
      more, deleted, next := false, false, pos;
    } else {
      MoveOn(pre, rest, tail, f.end + 1);
      more, deleted, next := true, false, pos + f.end + 1;
      pre', rest' := pre + rest[..f.end + 1], rest[f.end + 1..];
    }
  }

  datatype Outcome = MissingArgument | DeleteFailed | WriteFailed | Deleted(modified: bool)

  /** The texts after a delete command: one of them filtered. */
  ghost function AfterDelete(t: Texts, arg: string, b: bool): Texts {
    t.With(b, KeptStored(t.Half(b), Selected(arg), b))
  }

  /** Where the loop starts and what it is to reach. */
  lemma {:induction false} LoopStart(t: string, arg: string, b: bool) returns (text: string, tail: string)
    requires arg != "*" && arg != ""
    ensures t == "" + text + tail && NulFree(text) && (tail != "" ==> tail[0] == NUL)
    ensures KeptStored(t, Selected(arg), b) == Kept(text, Selected(arg), b) + tail
    ensures !Selected(arg)("") && "" + Kept(text, Selected(arg), b) == Kept(text, Selected(arg), b)
  {
    EmptyTextExactly(arg);
    var k := FirstNul(t);
    text, tail := t[..k], t[k..];
    assert "" + text + tail == t;
  }

  method DeleteLoop(r: Record, arg: string, b: bool) returns (out: Outcome)
    requires r.Framed() && r.magic == MAGIC && r.version == 0 && arg != "*" && arg != ""
    modifies r, r.data
    ensures out.Deleted? && r.Framed() && r.magic == MAGIC && r.version == 0
    ensures r.Value() == AfterDelete(old(r.Value()), arg, b)
    ensures if out.modified then r.Value() != old(r.Value()) else unchanged(r) && unchanged(r.data)
  {
    ghost var t0, hit := r.Value(), Selected(arg);
    ghost var text, tail := LoopStart(t0.Half(b), arg, b);
    ghost var goal := Kept(text, hit, b);
    ghost var pre, rest := "", text;
    assert t0 == t0.With(b, "" + text + tail);
    var pos: nat, modified, more := 0, false, true;
    while more
      invariant Midway(r, t0, b, pre, rest, tail) && pos == |pre|
      invariant if modified then |pre| + |rest| < |text| else unchanged(r) && unchanged(r.data)
      invariant |pre| + |rest| <= |text|
      invariant if more then pre + Kept(rest, hit, b) == goal else pre + rest == goal
      decreases more, |rest|
    {
      PassKeeps(pre, rest, hit, b);
      PassProgress(pre, rest, hit, b);
      var ok, deleted;
      ok, more, deleted, pos, pre, rest := DeletePass(r, pos, arg, b, t0, pre, rest, tail);
      if !ok {
        return DeleteFailed;
      }
      modified := modified || deleted;
    }
    assert r.Value().Half(b) == goal + tail;
    return Deleted(modified);
  }

  /** The delete command on a valid record: it ends, the delete primitive never
      reports an error, the other text is untouched, and the edited text is
      filtered; the record is valid again once its checksum is updated. */
  method DeleteMatching(r: Record, arg: string, b: bool) returns (out: Outcome)
    requires r.Valid() && arg != "*"
    modifies r, r.data
    ensures r.Valid()
    ensures out == if arg == "" then MissingArgument else Deleted(r.Value() != old(r.Value()))
    ensures r.Value() == if arg == "" then old(r.Value()) else AfterDelete(old(r.Value()), arg, b)
  {
    if arg == "" {
      return MissingArgument;
    }
    ghost var t0 := r.Value();
    out := DeleteLoop(r, arg, b);
    StructuredKept(t0, arg, b);
    if out == Deleted(true) {
      var ok := r.Seal();
      if !ok {
        out := WriteFailed;
      }
    }
  }

  lemma {:induction false} StructuredKept(t: Texts, arg: string, b: bool)
    requires Structured(t)
    ensures Structured(AfterDelete(t, arg, b))
  {
    var hit := Selected(arg);
    KeptStoredEnded(t.Half(b), hit, b);
    StructuredWith(t, b, KeptStored(t.Half(b), hit, b));
  }
}
