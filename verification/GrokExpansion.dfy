/** The recursive expansion of grok patterns in cppgrok/grokregex.hpp: every reference %name% to a
    known pattern becomes a group around the expansion of that pattern. Patterns are taken as
    already split into literal text and references. */
module GrokExpansion {

  datatype Token = Literal(text: string) | Ref(name: string, subname: string, condition: string)

  type Patterns = map<string, seq<Token>>

  /** The set is acyclic: a known reference in a pattern's body has a smaller rank. */
  ghost predicate Ranked(patterns: Patterns, rank: map<string, nat>) {
    && patterns.Keys <= rank.Keys
    && forall name :: name in patterns ==> Below(patterns, rank, patterns[name], rank[name])
  }

  /** All known references in ts have a rank below the bound. */
  ghost predicate Below(patterns: Patterns, rank: map<string, nat>, ts: seq<Token>, bound: nat) {
    forall t :: t in ts ==> Lower(patterns, rank, t, bound)
  }

  ghost predicate Lower(patterns: Patterns, rank: map<string, nat>, t: Token, bound: nat) {
    Known(patterns, t) ==> t.name in rank && rank[t.name] < bound
  }

  predicate Known(patterns: Patterns, t: Token) {
    t.Ref? && t.name in patterns
  }

  // ---------- Ranks and cycles ----------

  ghost predicate Refers(patterns: Patterns, from: string, to: string) {
    && from in patterns && to in patterns
    && exists t {:trigger t in patterns[from]} :: t in patterns[from] && t.Ref? && t.name == to
  }

  /** Each name of the path refers to the next. */
  ghost predicate Walk(patterns: Patterns, path: seq<string>) {
    forall i :: 0 <= i < |path| - 1 ==> Refers(patterns, path[i], path[i + 1])
  }

  ghost predicate Cycle(patterns: Patterns, path: seq<string>) {
    |path| >= 2 && path[0] == path[|path| - 1] && Walk(patterns, path)
  }

  /** No pattern refers to itself, directly or through others. */
  ghost predicate Acyclic(patterns: Patterns) {
    forall path :: !Cycle(patterns, path)
  }

  lemma {:induction false} RankFalls(patterns: Patterns, rank: map<string, nat>, path: seq<string>, i: nat)
    requires Ranked(patterns, rank) && Walk(patterns, path) && 0 < i < |path| && path[0] in patterns
    ensures path[i] in patterns && rank[path[i]] < rank[path[0]]
  {
    if i > 1 { RankFalls(patterns, rank, path, i - 1); }
    assert Refers(patterns, path[i - 1], path[i - 1 + 1]);
    assert Below(patterns, rank, patterns[path[i - 1]], rank[path[i - 1]]);
    var t :| t in patterns[path[i - 1]] && t.Ref? && t.name == path[i];
    assert Lower(patterns, rank, t, rank[path[i - 1]]);
  }

  /** Ranks below the number of names, for a set of names that refers to no other. */
  ghost predicate RankedPart(patterns: Patterns, rank: map<string, nat>) {
    && rank.Keys <= patterns.Keys
    && (forall name :: name in rank ==> rank[name] < |rank|)
    && forall name :: name in rank ==> RefersInto(patterns, name, rank)
  }

  ghost predicate RefersInto(patterns: Patterns, name: string, rank: map<string, nat>)
    requires name in patterns
  {
    forall t :: t in patterns[name] && Known(patterns, t) ==>
      t.name in rank && (name in rank ==> rank[t.name] < rank[name])
  }

  /** Every unranked name refers to an unranked one. */
  ghost predicate Stuck(patterns: Patterns, rank: map<string, nat>) {
    forall u :: u in patterns && u !in rank ==> !RefersInto(patterns, u, rank)
  }

  lemma PrependName(patterns: Patterns, name: string, rest: seq<string>)
    requires Walk(patterns, rest) && rest != [] && Refers(patterns, name, rest[0])
    ensures Walk(patterns, [name] + rest)
  {
    var path := [name] + rest;
    forall i | 0 <= i < |path| - 1 ensures Refers(patterns, path[i], path[i + 1]) {
      if i > 0 { assert Refers(patterns, rest[i - 1], rest[i - 1 + 1]); }
    }
  }

  /** Then walks go on as long as one likes. */
  lemma {:induction false} LongWalk(patterns: Patterns, rank: map<string, nat>, name: string, n: nat)
    returns (path: seq<string>)
    requires Stuck(patterns, rank) && name in patterns && name !in rank
    ensures |path| == n + 1 && path[0] == name && Walk(patterns, path)
    ensures forall i :: 0 <= i < |path| ==> path[i] in patterns
    decreases n
  {
    if n == 0 {
      path := [name];
    } else {
      assert !RefersInto(patterns, name, rank);
      var t :| t in patterns[name] && Known(patterns, t) && t.name !in rank;
      var rest := LongWalk(patterns, rank, t.name, n - 1);
      assert Refers(patterns, name, t.name);
      PrependName(patterns, name, rest);
      path := [name] + rest;
    }
  }

  lemma {:induction false} DistinctSize(path: seq<string>, names: set<string>)
    requires forall i :: 0 <= i < |path| ==> path[i] in names
    requires forall i, j :: 0 <= i < j < |path| ==> path[i] != path[j]
    ensures |path| <= |names|
  {
    if path != [] {
      DistinctSize(path[1..], names - {path[0]});
    }
  }

  /** A walk longer than there are names goes in a circle. */
  lemma LongWalkCircles(patterns: Patterns, path: seq<string>)
    requires Walk(patterns, path) && |path| > |patterns| && forall i :: 0 <= i < |path| ==> path[i] in patterns
    ensures !Acyclic(patterns)
  {
    if forall i, j :: 0 <= i < j < |path| ==> path[i] != path[j] {
      DistinctSize(path, patterns.Keys);
    } else {
      var i, j :| 0 <= i < j < |path| && path[i] == path[j];
      var circle := path[i..j + 1];
      forall k | 0 <= k < |circle| - 1 ensures Refers(patterns, circle[k], circle[k + 1]) {
        assert Refers(patterns, path[i + k], path[i + k + 1]);
      }
      assert Cycle(patterns, circle);
    }
  }

  lemma OneMore(patterns: Patterns, part: map<string, nat>, name: string)
    requires RankedPart(patterns, part) && name in patterns && name !in part && RefersInto(patterns, name, part)
    ensures RankedPart(patterns, part[name := |part|])
  {
    forall u | u in part ensures RefersInto(patterns, u, part[name := |part|]) {}
  }

  /** Without cycles some unranked name refers to ranked ones only. */
  lemma NextName(patterns: Patterns, part: map<string, nat>, some: string) returns (name: string)
    requires Acyclic(patterns) && some in patterns && some !in part
    ensures name in patterns && name !in part && RefersInto(patterns, name, part)
  {
    if Stuck(patterns, part) {
      var path := LongWalk(patterns, part, some, |patterns|);
      LongWalkCircles(patterns, path);
    }
    name :| name in patterns && name !in part && RefersInto(patterns, name, part);
  }

  lemma {:induction false} Complete(patterns: Patterns, part: map<string, nat>) returns (rank: map<string, nat>)
    requires Acyclic(patterns) && RankedPart(patterns, part)
    ensures RankedPart(patterns, rank) && patterns.Keys <= rank.Keys
    decreases |patterns.Keys - part.Keys|
  {
    rank := part;
    if some :| some in patterns && some !in part {
      var name := NextName(patterns, part, some);
      OneMore(patterns, part, name);
      rank := Complete(patterns, part[name := |part|]);
    }
  }

  /** A set of patterns can be ranked exactly when no pattern refers to itself. */
  lemma RankExists(patterns: Patterns)
    ensures (exists rank :: Ranked(patterns, rank)) <==> Acyclic(patterns)
  {
    if Acyclic(patterns) {
      var rank := SmallRank(patterns);
    }
    if rank :| Ranked(patterns, rank) {
      forall path ensures !Cycle(patterns, path) {
        if Cycle(patterns, path) {
          assert Refers(patterns, path[0], path[0 + 1]);
          RankFalls(patterns, rank, path, |path| - 1);
        }
      }
    }
  }

  /** With ranks below the number of patterns, which is a bound for any pattern text. */
  lemma SmallRank(patterns: Patterns) returns (rank: map<string, nat>)
    requires Acyclic(patterns)
    ensures Ranked(patterns, rank) && forall ts :: Below(patterns, rank, ts, |patterns|)
  {
    assert RankedPart(patterns, map[]);
    rank := Complete(patterns, map[]);
    assert rank.Keys == patterns.Keys;
    assert |rank| == |rank.Keys| == |patterns.Keys| == |patterns|;
    forall name | name in patterns ensures Below(patterns, rank, patterns[name], rank[name]) {
      assert RefersInto(patterns, name, rank);
      forall t | t in patterns[name] ensures Lower(patterns, rank, t, rank[name]) {}
    }
  }

  // ---------- What expansion means ----------

  /** The pieces of an expanded pattern: text, and the numbered brackets of added groups. */
  datatype Piece = Text(text: string) | Open(number: nat) | Close(number: nat)

  /** How many groups expanding ts adds. */
  ghost function Groups(patterns: Patterns, rank: map<string, nat>, ts: seq<Token>, bound: nat): nat
    requires Ranked(patterns, rank) && Below(patterns, rank, ts, bound)
    decreases bound, |ts| + 1
  {
    if ts == [] then 0
    else TokenGroups(patterns, rank, ts[0], bound) + Groups(patterns, rank, ts[1..], bound)
  }

  ghost function TokenGroups(patterns: Patterns, rank: map<string, nat>, t: Token, bound: nat): nat
    requires Ranked(patterns, rank) && Lower(patterns, rank, t, bound)
    decreases bound, 0
  {
    if Known(patterns, t) then 1 + Groups(patterns, rank, patterns[t.name], rank[t.name]) else 0
  }

  /** The expansion of ts when `next` groups have been opened before. */
  ghost function Expand(patterns: Patterns, rank: map<string, nat>, ts: seq<Token>, bound: nat, next: nat): seq<Piece>
    requires Ranked(patterns, rank) && Below(patterns, rank, ts, bound)
    decreases bound, |ts| + 1
  {
    if ts == [] then []
    else
      ExpandToken(patterns, rank, ts[0], bound, next)
      + Expand(patterns, rank, ts[1..], bound, next + TokenGroups(patterns, rank, ts[0], bound))
  }

  ghost function ExpandToken(patterns: Patterns, rank: map<string, nat>, t: Token, bound: nat, next: nat): seq<Piece>
    requires Ranked(patterns, rank) && Lower(patterns, rank, t, bound)
    decreases bound, 0
  {
    match t
    case Literal(text) => [Text(text)]
    case Ref(name, _, _) =>
      if name in patterns then
        [Open(next + 1)] + Expand(patterns, rank, patterns[name], rank[name], next + 1) + [Close(next + 1)]
      else [Text("%" + name + "%")]
  }

  /** A token as it is written in a pattern, without subname and condition. */
  function Written(t: Token): string {
    match t case Literal(text) => text case Ref(name, _, _) => "%" + name + "%"
  }

  /** The generated text: each known reference becomes one group around the text of its body. */
  ghost function Expanded(patterns: Patterns, rank: map<string, nat>, ts: seq<Token>, bound: nat): string
    requires Ranked(patterns, rank) && Below(patterns, rank, ts, bound)
    decreases bound, |ts| + 1
  {
    if ts == [] then ""
    else ExpandedToken(patterns, rank, ts[0], bound) + Expanded(patterns, rank, ts[1..], bound)
  }

  ghost function ExpandedToken(patterns: Patterns, rank: map<string, nat>, t: Token, bound: nat): string
    requires Ranked(patterns, rank) && Lower(patterns, rank, t, bound)
    decreases bound, 0
  {
    if Known(patterns, t) then "(" + Expanded(patterns, rank, patterns[t.name], rank[t.name]) + ")" else Written(t)
  }

  function Render(pieces: seq<Piece>): string {
    if pieces == [] then ""
    else (match pieces[0] case Text(text) => text case Open(_) => "(" case Close(_) => ")") + Render(pieces[1..])
  }

  lemma {:induction false} RenderAppend(a: seq<Piece>, b: seq<Piece>)
    ensures Render(a + b) == Render(a) + Render(b)
  {
    if a == [] {
      assert a + b == b;
    } else {
      assert (a + b)[1..] == a[1..] + b;
      RenderAppend(a[1..], b);
    }
  }

  /** The pieces say the same text. */
  lemma {:induction false} PiecesRender(patterns: Patterns, rank: map<string, nat>, ts: seq<Token>, bound: nat,
                                        next: nat)
    requires Ranked(patterns, rank) && Below(patterns, rank, ts, bound)
    ensures Render(Expand(patterns, rank, ts, bound, next)) == Expanded(patterns, rank, ts, bound)
    decreases bound, |ts| + 1
  {
    if ts != [] {
      var next' := next + TokenGroups(patterns, rank, ts[0], bound);
      TokenRender(patterns, rank, ts[0], bound, next);
      PiecesRender(patterns, rank, ts[1..], bound, next');
      RenderAppend(ExpandToken(patterns, rank, ts[0], bound, next), Expand(patterns, rank, ts[1..], bound, next'));
    }
  }

  lemma {:induction false} TokenRender(patterns: Patterns, rank: map<string, nat>, t: Token, bound: nat, next: nat)
    requires Ranked(patterns, rank) && Lower(patterns, rank, t, bound)
    ensures Render(ExpandToken(patterns, rank, t, bound, next)) == ExpandedToken(patterns, rank, t, bound)
    decreases bound, 0
  {
    if Known(patterns, t) {
      var inner := Expand(patterns, rank, patterns[t.name], rank[t.name], next + 1);
      PiecesRender(patterns, rank, patterns[t.name], rank[t.name], next + 1);
      RenderGroup(inner, next + 1);
    } else {
      assert Render([Text(Written(t))]) == Written(t);
    }
  }

  lemma RenderGroup(inner: seq<Piece>, number: nat)
    ensures Render([Open(number)] + inner + [Close(number)]) == "(" + Render(inner) + ")"
  {
    RenderAppend([Open(number)] + inner, [Close(number)]);
    RenderAppend([Open(number)], inner);
    assert Render([Open(number)]) == "(" && Render([Close(number)]) == ")";
  }

  // ---------- The program ----------

  class GrokRegex {
    var patterns: Patterns
    var pattern: seq<Token>
    var expanded: string
    var backref: nat
    /** The text by pieces, each bracket with the value of backref when its group was opened. */
    ghost var pieces: seq<Piece>

    constructor (ps: Patterns, p: seq<Token>)
      ensures patterns == ps && pattern == p
    {
      patterns, pattern, expanded, backref, pieces := ps, p, "", 0, [];
    }

    /** Appends the expansion of ts; the groups it opens are numbered by the counter. */
    method RecursiveGenerateRegex(ts: seq<Token>, ghost rank: map<string, nat>, ghost bound: nat)
      requires Ranked(patterns, rank) && Below(patterns, rank, ts, bound)
      modifies this`expanded, this`backref, this`pieces
      ensures pieces == old(pieces) + Expand(patterns, rank, ts, bound, old(backref))
      ensures backref == old(backref) + Groups(patterns, rank, ts, bound)
      ensures old(expanded == Render(pieces)) ==> expanded == Render(pieces)
      decreases bound, |ts|, 1
    {
      ghost var goal := pieces + Expand(patterns, rank, ts, bound, backref);
      ghost var total := backref + Groups(patterns, rank, ts, bound);
      var i := 0;
      while i < |ts|
        invariant 0 <= i <= |ts|
        invariant Below(patterns, rank, ts[i..], bound)
        invariant goal == pieces + Expand(patterns, rank, ts[i..], bound, backref)
        invariant total == backref + Groups(patterns, rank, ts[i..], bound)
        invariant old(expanded == Render(pieces)) ==> expanded == Render(pieces)
      {
        ghost var before, next := pieces, backref;
        assert ts[i..][1..] == ts[i + 1..];
        assert Lower(patterns, rank, ts[i], bound);
        AppendToken(ts[i], rank, bound);
        Regroup(before, ExpandToken(patterns, rank, ts[i], bound, next),
                Expand(patterns, rank, ts[i + 1..], bound, backref));
        i := i + 1;
      }
    }

    /** The body of the loop. */
    method AppendToken(t: Token, ghost rank: map<string, nat>, ghost bound: nat)
      requires Ranked(patterns, rank) && Lower(patterns, rank, t, bound)
      modifies this`expanded, this`backref, this`pieces
      ensures pieces == old(pieces) + ExpandToken(patterns, rank, t, bound, old(backref))
      ensures backref == old(backref) + TokenGroups(patterns, rank, t, bound)
      ensures old(expanded == Render(pieces)) ==> expanded == Render(pieces)
      decreases bound, 0, 0
    {
      match t {
        case Literal(text) =>
          Append(text, Text(text));
        case Ref(name, _, _) =>
          if name in patterns {
            backref := backref + 1;
            ghost var number, before := backref, pieces;
            Append("(", Open(number));
            RecursiveGenerateRegex(patterns[name], rank, rank[name]);
            Append(")", Close(number));
            ghost var inner := Expand(patterns, rank, patterns[name], rank[name], number);
            Regroup(before, [Open(number)], inner);
            Regroup(before, [Open(number)] + inner, [Close(number)]);
          } else {
            Append("%" + name + "%", Text("%" + name + "%"));
          }
      }
    }

    method Append(text: string, ghost piece: Piece)
      requires Render([piece]) == text
      modifies this`expanded, this`pieces
      ensures pieces == old(pieces) + [piece]
      ensures old(expanded == Render(pieces)) ==> expanded == Render(pieces)
    {
      RenderAppend(pieces, [piece]);
      expanded, pieces := expanded + text, pieces + [piece];
    }

    /** GenerateRegex starts from scratch, on any acyclic set of patterns. The groups in the text are
        balanced and numbered in the order in which they open, from 1 up to the final value of the
        counter. */
    method GenerateRegex() returns (ghost rank: map<string, nat>)
      requires Acyclic(patterns)
      modifies this`expanded, this`backref, this`pieces
      ensures Ranked(patterns, rank) && Below(patterns, rank, pattern, |patterns|)
      ensures expanded == Render(pieces) && Balanced(pieces, 1, backref)
      ensures expanded == Expanded(patterns, rank, pattern, |patterns|)
      ensures pieces == Expand(patterns, rank, pattern, |patterns|, 0)
      ensures backref == Groups(patterns, rank, pattern, |patterns|)
    {
      rank := SmallRank(patterns);
      backref, expanded, pieces := 0, "", [];
      RecursiveGenerateRegex(pattern, rank, |patterns|);
      assert pieces == Expand(patterns, rank, pattern, |patterns|, 0);
      PiecesRender(patterns, rank, pattern, |patterns|, 0);
      GroupsBalanced(patterns, rank, pattern, |patterns|, 0);
    }
  }

  lemma Regroup(a: seq<Piece>, b: seq<Piece>, c: seq<Piece>)
    ensures a + b + c == a + (b + c)
  {
  }

  // ---------- Groups: balanced, numbered in preorder ----------

  /** Matching brackets against a stack of open groups; None when they do not match. */
  datatype Option<T> = None | Some(value: T)

  function Matched(pieces: seq<Piece>, open: seq<nat>): Option<seq<nat>> {
    if pieces == [] then Some(open)
    else match pieces[0]
      case Text(_) => Matched(pieces[1..], open)
      case Open(n) => Matched(pieces[1..], open + [n])
      case Close(n) => if open != [] && open[|open| - 1] == n then Matched(pieces[1..], open[..|open| - 1]) else None
  }

  /** The numbers of the groups in the order in which they open. */
  function Opened(pieces: seq<Piece>): seq<nat> {
    if pieces == [] then []
    else (if pieces[0].Open? then [pieces[0].number] else []) + Opened(pieces[1..])
  }

  function Numbers(from: nat, count: nat): seq<nat> {
    seq(count, i requires 0 <= i => from + i)
  }

  lemma {:induction false} MatchedAppend(a: seq<Piece>, b: seq<Piece>, open: seq<nat>)
    ensures Matched(a + b, open) == match Matched(a, open) case Some(o) => Matched(b, o) case None => None
    decreases a
  {
    if a == [] {
      assert a + b == b;
    } else {
      assert (a + b)[1..] == a[1..] + b;
      match a[0] {
        case Text(_) => MatchedAppend(a[1..], b, open);
        case Open(n) => MatchedAppend(a[1..], b, open + [n]);
        case Close(n) =>
          if open != [] && open[|open| - 1] == n { MatchedAppend(a[1..], b, open[..|open| - 1]); }
      }
    }
  }

  lemma {:induction false} OpenedAppend(a: seq<Piece>, b: seq<Piece>)
    ensures Opened(a + b) == Opened(a) + Opened(b)
  {
    if a == [] {
      assert a + b == b;
    } else {
      assert (a + b)[1..] == a[1..] + b && (a + b)[0] == a[0];
      OpenedAppend(a[1..], b);
    }
  }

  ghost predicate Balanced(pieces: seq<Piece>, from: nat, count: nat) {
    && Opened(pieces) == Numbers(from, count)
    && forall open: seq<nat> :: Matched(pieces, open) == Some(open)
  }

  lemma BalancedAppend(a: seq<Piece>, b: seq<Piece>, from: nat, m: nat, n: nat)
    requires Balanced(a, from, m) && Balanced(b, from + m, n)
    ensures Balanced(a + b, from, m + n)
  {
    OpenedAppend(a, b);
    assert Numbers(from, m + n) == Numbers(from, m) + Numbers(from + m, n);
    forall open: seq<nat> ensures Matched(a + b, open) == Some(open) {
      MatchedAppend(a, b, open);
    }
  }

  lemma BalancedGroup(inner: seq<Piece>, number: nat, count: nat)
    requires Balanced(inner, number + 1, count)
    ensures Balanced([Open(number)] + inner + [Close(number)], number, 1 + count)
  {
    var first, last := [Open(number)], [Close(number)];
    OpenedAppend(first + inner, last);
    OpenedAppend(first, inner);
    assert Opened(first) == [number] && Opened(last) == [];
    assert Numbers(number, 1 + count) == [number] + Numbers(number + 1, count);
    forall open: seq<nat> ensures Matched(first + inner + last, open) == Some(open) {
      MatchedAppend(first + inner, last, open);
      MatchedAppend(first, inner, open);
      assert Matched(first, open) == Some(open + [number]);
      assert Matched(last, open + [number]) == Some(open);
    }
  }

  /** Every group is closed where its reference ends, and the groups are numbered in the order in
      which they open, from next + 1 on. */
  lemma {:induction false} GroupsBalanced(patterns: Patterns, rank: map<string, nat>, ts: seq<Token>, bound: nat,
                                          next: nat)
    requires Ranked(patterns, rank) && Below(patterns, rank, ts, bound)
    ensures Balanced(Expand(patterns, rank, ts, bound, next), next + 1, Groups(patterns, rank, ts, bound))
    decreases bound, |ts| + 1
  {
    if ts != [] {
      var m := TokenGroups(patterns, rank, ts[0], bound);
      TokenBalanced(patterns, rank, ts[0], bound, next);
      GroupsBalanced(patterns, rank, ts[1..], bound, next + m);
      BalancedAppend(ExpandToken(patterns, rank, ts[0], bound, next), Expand(patterns, rank, ts[1..], bound, next + m),
                     next + 1, m, Groups(patterns, rank, ts[1..], bound));
    }
  }

  lemma {:induction false} TokenBalanced(patterns: Patterns, rank: map<string, nat>, t: Token, bound: nat, next: nat)
    requires Ranked(patterns, rank) && Lower(patterns, rank, t, bound)
    ensures Balanced(ExpandToken(patterns, rank, t, bound, next), next + 1, TokenGroups(patterns, rank, t, bound))
    decreases bound, 0
  {
    if Known(patterns, t) {
      var body := patterns[t.name];
      GroupsBalanced(patterns, rank, body, rank[t.name], next + 1);
      BalancedGroup(Expand(patterns, rank, body, rank[t.name], next + 1), next + 1,
                    Groups(patterns, rank, body, rank[t.name]));
    }
  }

  // ---------- Expansion is recursive substitution, in any order ----------

  /** ts' comes from ts by substituting one known reference by its body in a group. */
  ghost predicate Substitutes(patterns: Patterns, ts: seq<Token>, ts': seq<Token>, i: nat) {
    && i < |ts| && Known(patterns, ts[i])
    && ts' == ts[..i] + InGroup(patterns[ts[i].name]) + ts[i + 1..]
  }

  function InGroup(body: seq<Token>): seq<Token> {
    [Literal("(")] + body + [Literal(")")]
  }

  /** The text of ts with references left as they are written. */
  function Flat(ts: seq<Token>): string {
    if ts == [] then "" else Written(ts[0]) + Flat(ts[1..])
  }

  lemma {:induction false} ExpandedAppend(patterns: Patterns, rank: map<string, nat>, a: seq<Token>, b: seq<Token>,
                                          bound: nat)
    requires Ranked(patterns, rank) && Below(patterns, rank, a + b, bound)
    requires Below(patterns, rank, a, bound) && Below(patterns, rank, b, bound)
    ensures Expanded(patterns, rank, a + b, bound)
         == Expanded(patterns, rank, a, bound) + Expanded(patterns, rank, b, bound)
  {
    if a == [] {
      assert a + b == b;
    } else {
      assert (a + b)[1..] == a[1..] + b;
      ExpandedAppend(patterns, rank, a[1..], b, bound);
      assert (a + b)[0] == a[0];
    }
  }

  /** The bound serves termination only. */
  lemma {:induction false} BoundIrrelevant(patterns: Patterns, rank: map<string, nat>, ts: seq<Token>, bound: nat,
                                           bound': nat)
    requires Ranked(patterns, rank) && Below(patterns, rank, ts, bound) && Below(patterns, rank, ts, bound')
    ensures Expanded(patterns, rank, ts, bound) == Expanded(patterns, rank, ts, bound')
    decreases |ts|
  {
    if ts != [] {
      BoundIrrelevant(patterns, rank, ts[1..], bound, bound');
    }
  }

  /** A known reference expands to its body in a group. */
  lemma ReferenceIsGroup(patterns: Patterns, rank: map<string, nat>, t: Token, bound: nat)
    requires Ranked(patterns, rank) && Lower(patterns, rank, t, bound) && Known(patterns, t)
    ensures Below(patterns, rank, [t], bound) && Below(patterns, rank, InGroup(patterns[t.name]), bound)
    ensures Expanded(patterns, rank, [t], bound) == Expanded(patterns, rank, InGroup(patterns[t.name]), bound)
  {
    var body, l, r := patterns[t.name], [Literal("(")], [Literal(")")];
    assert Below(patterns, rank, body, rank[t.name]);
    assert forall u :: u in body ==> Lower(patterns, rank, u, rank[t.name]);
    assert forall u :: u in InGroup(body) ==> u in l || u in body || u in r;
    ExpandedAppend(patterns, rank, l + body, r, bound);
    ExpandedAppend(patterns, rank, l, body, bound);
    BoundIrrelevant(patterns, rank, body, rank[t.name], bound);
    assert Expanded(patterns, rank, [t], bound) == ExpandedToken(patterns, rank, t, bound);
  }

  /** Replacing a part by another with the same expansion does not change the expansion. */
  lemma ReplacePart(patterns: Patterns, rank: map<string, nat>, a: seq<Token>, m: seq<Token>, m': seq<Token>,
                    b: seq<Token>, bound: nat)
    requires Ranked(patterns, rank) && Below(patterns, rank, a, bound) && Below(patterns, rank, b, bound)
    requires Below(patterns, rank, m, bound) && Below(patterns, rank, m', bound)
    requires Expanded(patterns, rank, m, bound) == Expanded(patterns, rank, m', bound)
    ensures Below(patterns, rank, a + m + b, bound) && Below(patterns, rank, a + m' + b, bound)
    ensures Expanded(patterns, rank, a + m + b, bound) == Expanded(patterns, rank, a + m' + b, bound)
  {
    ExpandedAppend(patterns, rank, a + m, b, bound);
    ExpandedAppend(patterns, rank, a, m, bound);
    ExpandedAppend(patterns, rank, a + m', b, bound);
    ExpandedAppend(patterns, rank, a, m', bound);
  }

  /** One substitution does not change the expansion. */
  lemma SubstitutionKeeps(patterns: Patterns, rank: map<string, nat>, ts: seq<Token>, ts': seq<Token>, i: nat,
                          bound: nat)
    requires Ranked(patterns, rank) && Below(patterns, rank, ts, bound) && Substitutes(patterns, ts, ts', i)
    ensures Below(patterns, rank, ts', bound)
    ensures Expanded(patterns, rank, ts', bound) == Expanded(patterns, rank, ts, bound)
  {
    assert ts == ts[..i] + [ts[i]] + ts[i + 1..];
    assert ts[i] in ts;
    ReferenceIsGroup(patterns, rank, ts[i], bound);
    ReplacePart(patterns, rank, ts[..i], [ts[i]], InGroup(patterns[ts[i].name]), ts[i + 1..], bound);
  }

  /** Once no known reference is left the expansion is the text itself. */
  lemma {:induction false} NothingToExpand(patterns: Patterns, rank: map<string, nat>, ts: seq<Token>, bound: nat)
    requires Ranked(patterns, rank) && Below(patterns, rank, ts, bound)
    requires forall t :: t in ts ==> !Known(patterns, t)
    ensures Expanded(patterns, rank, ts, bound) == Flat(ts)
  {
    if ts != [] {
      NothingToExpand(patterns, rank, ts[1..], bound);
    }
  }

  ghost predicate Derivation(patterns: Patterns, run: seq<seq<Token>>, at: seq<nat>) {
    && |run| == |at| + 1
    && forall j :: 0 <= j < |at| ==> Substitutes(patterns, run[j], run[j + 1], at[j])
  }

  /** However known references are substituted, one at a time and in whatever order, until none is
      left: the text is what the program generates. Unknown references stay as %name%. */
  lemma {:induction false} AnyOrder(patterns: Patterns, rank: map<string, nat>, run: seq<seq<Token>>, at: seq<nat>,
                                    bound: nat)
    requires Ranked(patterns, rank) && Derivation(patterns, run, at) && Below(patterns, rank, run[0], bound)
    requires forall t :: t in run[|at|] ==> !Known(patterns, t)
    ensures Expanded(patterns, rank, run[0], bound) == Flat(run[|at|])
    decreases |at|
  {
    if at == [] {
      NothingToExpand(patterns, rank, run[0], bound);
    } else {
      assert Substitutes(patterns, run[0], run[0 + 1], at[0]);
      SubstitutionKeeps(patterns, rank, run[0], run[1], at[0], bound);
      forall j | 0 <= j < |at[1..]| ensures Substitutes(patterns, run[1..][j], run[1..][j + 1], at[1..][j]) {
        assert Substitutes(patterns, run[j + 1], run[j + 1 + 1], at[j + 1]);
      }
      AnyOrder(patterns, rank, run[1..], at[1..], bound);
    }
  }
}
