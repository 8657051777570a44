/** The prefix formula parser (parser.cpp): `not(F)`, `and(A,B)`, `or(A,B)`,
    `imp(A,B)`, `iff(A,B)`, `forall(x,F)`, `exists(x,F)` and `p(x1,...,xn)`,
    after whitespace removal and lowercasing. The parser's diagnostic
    message and its static registries of parsed atoms and terms are not
    modelled; a failed parse is `None`. */
module Parser {
  import opened Wrappers
  import opened Names
  import opened Terms
  import opened Formulas

  // ---------------------------------------------------------------------
  // Characters (the "C" locale of <cctype>)
  // ---------------------------------------------------------------------

  /** `std::isspace`: space, tab, newline, vertical tab, form feed, return. */
  predicate IsSpace(c: char)
  {
    c == ' ' || c == '\t' || c == '\n' || c == '\U{B}' || c == '\U{C}' || c == '\r'
  }

  predicate IsUpper(c: char)
  {
    'A' <= c <= 'Z'
  }

  /** `std::isalnum`. */
  predicate IsAlnum(c: char)
  {
    '0' <= c <= '9' || 'a' <= c <= 'z' || 'A' <= c <= 'Z'
  }

  predicate AllAlnum(s: string)
  {
    forall k :: 0 <= k < |s| ==> IsAlnum(s[k])
  }

  /** `std::tolower`. */
  function ToLower(c: char): (r: char)
    ensures !IsUpper(r)
    ensures IsUpper(c) ==> 'a' <= r <= 'z' && r as int - 'a' as int == c as int - 'A' as int
    ensures !IsUpper(c) ==> r == c
  {
    if IsUpper(c) then (c as int + 32) as char else c
  }

  /** The constructor's preprocessing: every whitespace character is
      dropped and every other character lowercased, in order. */
  function Preprocess(s: string): (r: string)
    ensures |r| <= |s|
    ensures forall k :: 0 <= k < |r| ==> !IsSpace(r[k]) && !IsUpper(r[k])
    ensures forall c :: c in r ==> c in s || (exists d :: d in s && IsUpper(d) && c == ToLower(d))
    ensures |s| == 1 ==> r == (if IsSpace(s[0]) then [] else [ToLower(s[0])])
  {
    if s == [] then []
    else (if IsSpace(s[0]) then [] else [ToLower(s[0])]) + Preprocess(s[1..])
  }

  /** Preprocessing works character by character: together with the
      one-character case of `Preprocess` this pins the result down to the
      non-space characters of the input, lowercased, in their order. */
  lemma {:induction false} PreprocessAppend(a: string, b: string)
    ensures Preprocess(a + b) == Preprocess(a) + Preprocess(b)
  {
    if a != [] {
      assert (a + b)[0] == a[0];
      assert (a + b)[1..] == a[1..] + b;
      PreprocessAppend(a[1..], b);
    } else {
      assert a + b == b;
    }
  }

  // ---------------------------------------------------------------------
  // Bracket depth and argument splitting
  // ---------------------------------------------------------------------

  function Delta(c: char): int
  {
    if c == '(' then 1 else if c == ')' then -1 else 0
  }

  /** Opened minus closed brackets. */
  function Depth(s: string): int
  {
    if s == [] then 0 else Depth(s[..|s| - 1]) + Delta(s[|s| - 1])
  }

  /** Read from depth `d`, no prefix of `s` closes a bracket that is not
      open (see `NonNegativeAtIff` for the same property stated over
      prefixes). */
  predicate NonNegativeAt(s: string, d: int)
  {
    if s == [] then d >= 0 else NonNegativeAt(s[..|s| - 1], d) && d + Depth(s) >= 0
  }

  /** Read from depth `d`, every comma of `s` is inside brackets. */
  predicate CommaFreeAt(s: string, d: int)
  {
    s == [] || (CommaFreeAt(s[..|s| - 1], d) && (s[|s| - 1] == ',' ==> d + Depth(s[..|s| - 1]) != 0))
  }

  predicate NonNegative(s: string)
  {
    NonNegativeAt(s, 0)
  }

  predicate Balanced(s: string)
  {
    NonNegative(s) && Depth(s) == 0
  }

  predicate NoTopComma(s: string)
  {
    CommaFreeAt(s, 0)
  }

  /** What `ParseArgs` can produce as one argument. */
  predicate Piece(s: string)
  {
    Balanced(s) && NoTopComma(s)
  }

  /** The arguments joined back with commas. */
  function Join(ps: seq<string>): string
    requires |ps| >= 1
  {
    if |ps| == 1 then ps[0] else ps[0] + "," + Join(ps[1..])
  }

  /** The loop of `ParseArgs` from character `i`, with the bracket depth, the
      argument being collected and the arguments already split off. */
  function ArgsFrom(s: string, i: nat, depth: nat, current: string, acc: seq<string>): Option<seq<string>>
    requires i <= |s|
    decreases |s| - i
  {
    if i == |s| then
      if depth > 0 then None else Some(acc + [current])
    else if s[i] == '(' then ArgsFrom(s, i + 1, depth + 1, current + [s[i]], acc)
    else if s[i] == ')' then
      if depth == 0 then None else ArgsFrom(s, i + 1, depth - 1, current + [s[i]], acc)
    else if s[i] == ',' && depth == 0 then ArgsFrom(s, i + 1, 0, "", acc + [current])
    else ArgsFrom(s, i + 1, depth, current + [s[i]], acc)
  }

  /** `ParseArgs`: splits at the commas outside brackets. It fails exactly
      when some `)` closes nothing or some `(` is left open; otherwise the
      pieces, at least one, joined with commas give back the input, and
      none of them holds a comma outside brackets. */
  function ParseArgs(s: string): (r: Option<seq<string>>)
    ensures r.Some? <==> Balanced(s)
    ensures r.Some? ==> |r.value| >= 1 && Join(r.value) == s && forall p :: p in r.value ==> Piece(p)
    ensures r.Some? ==> forall p :: p in r.value ==> |p| <= |s|
  {
    assert s[..0] == "";
    assert [] + [""] == [""];
    ArgsFromSplits(s, 0, 0, "", []);
    var r := ArgsFrom(s, 0, 0, "", []);
    if r.Some? then
      assert forall p :: p in r.value ==> |p| <= |s| by {
        forall p | p in r.value ensures |p| <= |s| {
          JoinContains(r.value, p);
        }
      }
      r
    else r
  }

  // ---------------------------------------------------------------------
  // The parser
  // ---------------------------------------------------------------------

  /** `find_first_of`; "not found" (`npos`) is |s|. */
  function FirstIndex(s: string, c: char): (r: nat)
    ensures r <= |s|
    ensures r < |s| ==> s[r] == c
    ensures forall k :: 0 <= k < r ==> s[k] != c
  {
    if s == [] then 0 else if s[0] == c then 0 else 1 + FirstIndex(s[1..], c)
  }

  /** `find_last_of`; "not found" (`npos`) is |s|. Since `npos` exceeds every
      index, a missing `(` always fails the test `open >= close`, and a
      missing `)` makes the arguments run to the end of the string, as
      `substr` with an overlong count does. */
  function LastIndex(s: string, c: char): (r: nat)
    ensures r <= |s|
    ensures r < |s| ==> s[r] == c && forall k :: r < k < |s| ==> s[k] != c
    ensures r == |s| ==> forall k :: 0 <= k < |s| ==> s[k] != c
  {
    if s == [] then 0
    else if s[|s| - 1] == c then |s| - 1
    else
      var r := LastIndex(s[..|s| - 1], c);
      if r == |s| - 1 then |s| else r
  }

  /** `ParseInternal<Variable>`: any alphanumeric string, the empty one too. */
  function ParseVariable(s: string): (r: Option<Name>)
    ensures r.Some? <==> AllAlnum(s)
    ensures r.Some? ==> r.value == s
  {
    if AllAlnum(s) then Some(s) else None
  }

  /** `ParseInternal<Term>` on each argument of an atom: only variables. */
  function ParseTerms(ps: seq<string>): (r: Option<seq<Term>>)
    ensures r.Some? <==> forall k :: 0 <= k < |ps| ==> AllAlnum(ps[k])
    ensures r.Some? ==> |r.value| == |ps| && forall k :: 0 <= k < |ps| ==> r.value[k] == Var(ps[k])
  {
    if ps == [] then Some([])
    else
      var x :- ParseVariable(ps[0]);
      var ts :- ParseTerms(ps[1..]);
      Some([Var(x)] + ts)
  }

  /** `ParseAndConvertArgs`: the arguments, only if there are exactly `n`. */
  function Arguments(args: string, n: nat): (r: Option<seq<string>>)
    ensures r.Some? ==> |r.value| == n && forall k :: 0 <= k < n ==> |r.value[k]| <= |args|
  {
    var ps :- ParseArgs(args);
    if |ps| == n then Some(ps) else None
  }

  function BinaryKeyword(name: string): Option<Connective>
  {
    if name == "or" then Some(Or)
    else if name == "and" then Some(And)
    else if name == "imp" then Some(Imp)
    else if name == "iff" then Some(Iff)
    else None
  }

  function QuantifierKeyword(name: string): Option<Quantifier>
  {
    if name == "forall" then Some(Forall)
    else if name == "exists" then Some(Exists)
    else None
  }

  predicate Keyword(name: string)
  {
    name == "not" || BinaryKeyword(name).Some? || QuantifierKeyword(name).Some?
  }

  /** `ParseInternal<Formula>` on an already preprocessed string. A single
      character is a constant (`T`, `F`) or an atom without terms. Otherwise
      the name is the text before the first `(` and the arguments the text
      between it and the last `)`; anything after the last `)` is ignored.
      The constants come only from the one-character strings `T` and `F`. */
  function ParseFormula(s: string): (r: Option<Formula>)
    ensures r.Some? && r.value.True? ==> s == "T"
    ensures r.Some? && r.value.False? ==> s == "F"
    ensures |s| == 1 ==> r == Some(if s == "T" then True else if s == "F" then False else Atom(s, []))
    decreases |s|, 0
  {
    if |s| == 1 then
      if s[0] == 'T' then Some(True)
      else if s[0] == 'F' then Some(False)
      else Some(Atom(s, []))
    else
      var open := FirstIndex(s, '(');
      var close := LastIndex(s, ')');
      if open >= close then None
      else ParseCompound(s[..open], s[open + 1..close])
  }

  /** The keyword dispatch on the text before the first `(`, with `args` the
      text between it and the last `)`. */
  function ParseCompound(name: string, args: string): (r: Option<Formula>)
    ensures r.Some? ==> !r.value.True? && !r.value.False?
    decreases |args|, 1
  {
    if name == "not" then
      var ps :- Arguments(args, 1);
      var g :- ParseFormula(ps[0]);
      Some(Not(g))
    else if BinaryKeyword(name).Some? then
      var ps :- Arguments(args, 2);
      var a :- ParseFormula(ps[0]);
      var b :- ParseFormula(ps[1]);
      Some(Binary(BinaryKeyword(name).value, a, b))
    else if QuantifierKeyword(name).Some? then
      var ps :- Arguments(args, 2);
      var x :- ParseVariable(ps[0]);
      var body :- ParseFormula(ps[1]);
      Some(Quantified(QuantifierKeyword(name).value, x, body))
    else if AllAlnum(name) then
      var ps :- ParseArgs(args);
      var ts :- ParseTerms(ps);
      Some(Atom(name, ts))
    else None
  }

  /** `FormulaParser`: preprocess, then parse. Lowercasing leaves no `T` or
      `F`, so the constants are never produced (see `NoConstantsParsed`). */
  function FormulaParser(s: string): (r: Option<Formula>)
    ensures r.Some? ==> !r.value.True? && !r.value.False?
  {
    var t := Preprocess(s);
    assert |t| == 1 ==> !IsUpper(t[0]);
    ParseFormula(t)
  }

  // ---------------------------------------------------------------------
  // Lemmas: bracket depth
  // ---------------------------------------------------------------------

  lemma DepthSnoc(x: string, c: char, d: int)
    ensures Depth(x + [c]) == Depth(x) + Delta(c)
    ensures NonNegativeAt(x + [c], d) <==> NonNegativeAt(x, d) && d + Depth(x) + Delta(c) >= 0
    ensures CommaFreeAt(x + [c], d) <==> CommaFreeAt(x, d) && (c == ',' ==> d + Depth(x) != 0)
  {
    assert (x + [c])[..|x|] == x;
  }

  /** Depth, the no-underflow property and comma freedom all compose along
      concatenation, the second part read from where the first ends. */
  lemma {:induction false} Concat(a: string, b: string, d: int)
    ensures Depth(a + b) == Depth(a) + Depth(b)
    ensures NonNegativeAt(a + b, d) <==> NonNegativeAt(a, d) && NonNegativeAt(b, d + Depth(a))
    ensures CommaFreeAt(a + b, d) <==> CommaFreeAt(a, d) && CommaFreeAt(b, d + Depth(a))
    decreases |b|
  {
    if b == [] {
      assert a + b == a;
      assert NonNegativeAt(a, d) ==> d + Depth(a) >= 0;
    } else {
      var b' := b[..|b| - 1];
      var c := b[|b| - 1];
      Concat(a, b', d);
      assert a + b == (a + b') + [c];
      assert b == b' + [c];
      DepthSnoc(a + b', c, d);
      DepthSnoc(b', c, d + Depth(a));
    }
  }

  lemma {:induction false} NonNegativeAtLift(s: string, d: int, e: int)
    requires NonNegativeAt(s, d) && e >= d
    ensures NonNegativeAt(s, e)
    decreases |s|
  {
    if s != [] {
      NonNegativeAtLift(s[..|s| - 1], d, e);
    }
  }

  /** Inside one more bracket, no comma is at depth 0. */
  lemma {:induction false} NonNegativeAtInside(s: string, d: int)
    requires NonNegativeAt(s, d)
    ensures CommaFreeAt(s, d + 1)
    decreases |s|
  {
    if s != [] {
      var t := s[..|s| - 1];
      NonNegativeAtInside(t, d);
      assert NonNegativeAt(t, d);
      assert t == [] ==> d + Depth(t) >= 0;
      if t != [] {
        assert d + Depth(t) >= 0;
      }
    }
  }

  /** Text without brackets sits at depth 0 throughout; without commas as
      well, it is one argument. */
  lemma {:induction false} Flat(s: string)
    requires forall k :: 0 <= k < |s| ==> s[k] != '(' && s[k] != ')'
    ensures Depth(s) == 0 && Balanced(s)
    ensures (forall k :: 0 <= k < |s| ==> s[k] != ',') ==> Piece(s)
    decreases |s|
  {
    if s != [] {
      Flat(s[..|s| - 1]);
    }
  }

  /** `NonNegativeAt` is the prefix property its documentation states. */
  lemma {:induction false} NonNegativeAtIff(s: string, d: int)
    ensures NonNegativeAt(s, d) <==> forall k :: 0 <= k <= |s| ==> d + Depth(s[..k]) >= 0
    decreases |s|
  {
    if s == [] {
      assert s[..0] == s;
    } else {
      var t := s[..|s| - 1];
      NonNegativeAtIff(t, d);
      assert s[..|s|] == s;
      assert forall k :: 0 <= k <= |t| ==> s[..k] == t[..k];
    }
  }

  // ---------------------------------------------------------------------
  // Lemmas: splitting
  // ---------------------------------------------------------------------

  lemma {:induction false} JoinSnoc(ps: seq<string>, x: string)
    requires |ps| >= 1
    ensures Join(ps + [x]) == Join(ps) + "," + x
    decreases |ps|
  {
    if |ps| == 1 {
      assert ps + [x] == [ps[0], x];
      assert [ps[0], x][1..] == [x];
    } else {
      var qs := ps + [x];
      assert qs[0] == ps[0] && |qs| > 1;
      assert qs[1..] == ps[1..] + [x];
      JoinSnoc(ps[1..], x);
      assert Join(qs) == ps[0] + "," + Join(ps[1..] + [x]);
      assert Join(ps) == ps[0] + "," + Join(ps[1..]);
    }
  }

  lemma JoinContains(ps: seq<string>, p: string)
    requires |ps| >= 1 && p in ps
    ensures |p| <= |Join(ps)|
    ensures forall c :: c in p ==> c in Join(ps)
    decreases |ps|
  {
    if |ps| > 1 && p != ps[0] {
      JoinContains(ps[1..], p);
    }
  }

  /** The invariant of `ParseArgs`'s loop at character `i`: the arguments so
      far and the one being collected join to the text read; `depth` is the
      bracket depth of that text and of the current argument, neither of
      which ever closed an unopened bracket; the current argument holds no
      comma at depth 0 and the finished ones are arguments. */
  predicate SplitState(s: string, i: nat, depth: nat, current: string, acc: seq<string>)
    requires i <= |s|
  {
    && Join(acc + [current]) == s[..i]
    && Depth(s[..i]) == depth && NonNegative(s[..i])
    && Depth(current) == depth && NonNegative(current) && NoTopComma(current)
    && forall p :: p in acc ==> Piece(p)
  }

  /** Reading a character that neither splits nor fails keeps the invariant. */
  lemma SplitStateStep(s: string, i: nat, depth: nat, current: string, acc: seq<string>, depth': nat)
    requires i < |s| && SplitState(s, i, depth, current, acc)
    requires !(s[i] == ')' && depth == 0) && !(s[i] == ',' && depth == 0)
    requires depth' == depth + Delta(s[i])
    ensures SplitState(s, i + 1, depth', current + [s[i]], acc)
  {
    var c := s[i];
    assert Join(acc + [current + [c]]) == s[..i + 1] by {
      assert s[..i + 1] == s[..i] + [c];
      JoinExtend(acc, current, c);
    }
    assert Depth(s[..i + 1]) == depth' && NonNegative(s[..i + 1]) by {
      assert s[..i + 1] == s[..i] + [c];
      DepthSnoc(s[..i], c, 0);
    }
    assert Depth(current + [c]) == depth' && NonNegative(current + [c]) && NoTopComma(current + [c]) by {
      DepthSnoc(current, c, 0);
    }
  }

  /** Extending the current argument extends the joined text. */
  lemma JoinExtend(acc: seq<string>, current: string, c: char)
    ensures Join(acc + [current + [c]]) == Join(acc + [current]) + [c]
  {
    if acc == [] {
      assert acc + [current + [c]] == [current + [c]];
      assert acc + [current] == [current];
    } else {
      JoinSnoc(acc, current);
      JoinSnoc(acc, current + [c]);
    }
  }

  /** A comma at depth 0 finishes the current argument. */
  lemma SplitStateComma(s: string, i: nat, current: string, acc: seq<string>)
    requires i < |s| && SplitState(s, i, 0, current, acc) && s[i] == ','
    ensures SplitState(s, i + 1, 0, "", acc + [current])
  {
    assert s[..i + 1] == s[..i] + [','];
    DepthSnoc(s[..i], ',', 0);
    JoinSnoc(acc + [current], "");
  }

  /** A `)` at depth 0 makes the whole input unbalanced. */
  lemma SplitStateClose(s: string, i: nat, current: string, acc: seq<string>)
    requires i < |s| && SplitState(s, i, 0, current, acc) && s[i] == ')'
    ensures !Balanced(s)
  {
    assert s[..i + 1] == s[..i] + [')'];
    DepthSnoc(s[..i], ')', 0);
    assert s == s[..i + 1] + s[i + 1..];
    Concat(s[..i + 1], s[i + 1..], 0);
  }

  /** The invariant of `ParseArgs`'s loop, carried to its end. */
  lemma {:induction false} ArgsFromSplits(s: string, i: nat, depth: nat, current: string, acc: seq<string>)
    requires i <= |s| && SplitState(s, i, depth, current, acc)
    ensures var r := ArgsFrom(s, i, depth, current, acc);
      && (r.Some? <==> Balanced(s))
      && (r.Some? ==> |r.value| >= 1 && Join(r.value) == s && forall p :: p in r.value ==> Piece(p))
    decreases |s| - i
  {
    if i == |s| {
      assert s[..i] == s;
    } else if s[i] == ')' && depth == 0 {
      SplitStateClose(s, i, current, acc);
    } else if s[i] == ',' && depth == 0 {
      SplitStateComma(s, i, current, acc);
      ArgsFromSplits(s, i + 1, 0, "", acc + [current]);
    } else {
      var depth' := depth + Delta(s[i]);
      SplitStateStep(s, i, depth, current, acc, depth');
      ArgsFromSplits(s, i + 1, depth', current + [s[i]], acc);
    }
  }

  /** Scanning a stretch that, read from depth `d`, never closes an unopened
      bracket and holds no comma at depth 0 only collects it into the current
      argument. */
  lemma {:induction false} ScanSegment(s: string, i: nat, j: nat, d: nat, c: string, acc: seq<string>)
    requires i <= j <= |s|
    requires NonNegativeAt(s[i..j], d) && CommaFreeAt(s[i..j], d)
    ensures d + Depth(s[i..j]) >= 0
    ensures ArgsFrom(s, i, d, c, acc) == ArgsFrom(s, j, d + Depth(s[i..j]), c + s[i..j], acc)
    decreases j - i
  {
    if j == i {
      assert s[i..j] == [];
      assert c + s[i..j] == c;
    } else {
      var ch := s[j - 1];
      assert s[i..j] == s[i..j - 1] + [ch];
      DepthSnoc(s[i..j - 1], ch, d);
      ScanSegment(s, i, j - 1, d, c, acc);
      var d' := d + Depth(s[i..j - 1]);
      var c' := c + s[i..j - 1];
      assert c + s[i..j] == c' + [ch];
      assert ArgsFrom(s, j - 1, d', c', acc) == ArgsFrom(s, j, d' + Delta(ch), c' + [ch], acc);
    }
  }

  lemma {:induction false} ArgsFromJoin(s: string, i: nat, qs: seq<string>, acc: seq<string>)
    requires |qs| >= 1 && i <= |s| && s[i..] == Join(qs)
    requires forall q :: q in qs ==> Piece(q)
    ensures ArgsFrom(s, i, 0, "", acc) == Some(acc + qs)
    decreases |qs|
  {
    var q := qs[0];
    var j := i + |q|;
    assert s[i..j] == q && Piece(q) by {
      assert q in qs;
    }
    ScanSegment(s, i, j, 0, "", acc);
    assert "" + s[i..j] == q;
    if |qs| == 1 {
      assert j == |s|;
      assert acc + [q] == acc + qs;
    } else {
      assert s[j] == ',';
      assert s[j + 1..] == Join(qs[1..]);
      ArgsFromJoin(s, j + 1, qs[1..], acc + [q]);
      assert acc + [q] + qs[1..] == acc + qs;
    }
  }

  /** `ParseArgs` inverts joining: arguments that are balanced and hold no
      comma outside brackets are split back exactly. */
  lemma ParseArgsJoin(qs: seq<string>)
    requires |qs| >= 1 && forall q :: q in qs ==> Piece(q)
    ensures ParseArgs(Join(qs)) == Some(qs)
  {
    var s := Join(qs);
    assert s[0..] == s;
    ArgsFromJoin(s, 0, qs, []);
    assert [] + qs == qs;
  }

  // ---------------------------------------------------------------------
  // Lemmas: preprocessing
  // ---------------------------------------------------------------------

  /** Preprocessing leaves text without whitespace and capitals alone, and
      is therefore idempotent. */
  lemma {:induction false} PreprocessKeeps(s: string)
    requires forall k :: 0 <= k < |s| ==> !IsSpace(s[k]) && !IsUpper(s[k])
    ensures Preprocess(s) == s
  {
    if s != [] {
      PreprocessKeeps(s[1..]);
      assert [s[0]] + s[1..] == s;
    }
  }

  lemma PreprocessIdempotent(s: string)
    ensures Preprocess(Preprocess(s)) == Preprocess(s)
  {
    PreprocessKeeps(Preprocess(s));
  }

  // ---------------------------------------------------------------------
  // Lemmas: the constant branches are dead
  // ---------------------------------------------------------------------

  predicate NoConstants(f: Formula)
  {
    match f
    case True => false
    case False => false
    case Atom(_, _) => true
    case Not(g) => NoConstants(g)
    case Binary(_, a, b) => NoConstants(a) && NoConstants(b)
    case Quantified(_, _, body) => NoConstants(body)
  }

  predicate NoUpper(s: string)
  {
    forall k :: 0 <= k < |s| ==> !IsUpper(s[k])
  }

  lemma PieceNoUpper(args: string, ps: seq<string>, k: nat)
    requires NoUpper(args) && |ps| >= 1 && Join(ps) == args && k < |ps|
    ensures NoUpper(ps[k])
  {
    JoinContains(ps, ps[k]);
    forall m | 0 <= m < |ps[k]| ensures !IsUpper(ps[k][m]) {
      assert ps[k][m] in ps[k];
    }
  }

  /** Text without capitals never parses to a formula holding `T` or `F`,
      at any depth. */
  lemma {:induction false} NoConstantsParsed(s: string)
    requires NoUpper(s) && ParseFormula(s).Some?
    ensures NoConstants(ParseFormula(s).value)
    decreases |s|, 0
  {
    if |s| != 1 {
      var open := FirstIndex(s, '(');
      var close := LastIndex(s, ')');
      var args := s[open + 1..close];
      assert NoUpper(args) by {
        forall m | 0 <= m < |args| ensures !IsUpper(args[m]) {
          assert args[m] == s[open + 1 + m];
        }
      }
      NoConstantsCompound(s[..open], args);
    }
  }

  lemma {:induction false} NoConstantsCompound(name: string, args: string)
    requires NoUpper(args) && ParseCompound(name, args).Some?
    ensures NoConstants(ParseCompound(name, args).value)
    decreases |args|, 1
  {
    if name == "not" {
      var ps := Arguments(args, 1).value;
      PieceNoUpper(args, ps, 0);
      NoConstantsParsed(ps[0]);
    } else if BinaryKeyword(name).Some? {
      var ps := Arguments(args, 2).value;
      PieceNoUpper(args, ps, 0);
      PieceNoUpper(args, ps, 1);
      NoConstantsParsed(ps[0]);
      NoConstantsParsed(ps[1]);
    } else if QuantifierKeyword(name).Some? {
      var ps := Arguments(args, 2).value;
      PieceNoUpper(args, ps, 1);
      NoConstantsParsed(ps[1]);
    }
  }

  lemma ConstantsUnreachable(s: string)
    requires FormulaParser(s).Some?
    ensures NoConstants(FormulaParser(s).value)
  {
    NoConstantsParsed(Preprocess(s));
  }

  // ---------------------------------------------------------------------
  // Lemmas: parsing inverts the prefix printer
  // ---------------------------------------------------------------------

  function QuantifierWord(q: Quantifier): string
  {
    match q
    case Forall => "forall"
    case Exists => "exists"
  }

  function ConnectiveWord(c: Connective): string
  {
    match c
    case And => "and"
    case Or => "or"
    case Imp => "imp"
    case Iff => "iff"
  }

  function TermText(t: Term): string
  {
    if t.Var? then t.name else Terms.Print(t)
  }

  function TermTexts(ts: seq<Term>): (r: seq<string>)
    ensures |r| == |ts| && forall k :: 0 <= k < |ts| ==> r[k] == TermText(ts[k])
  {
    if ts == [] then [] else [TermText(ts[0])] + TermTexts(ts[1..])
  }

  /** `name(a1,...,an)`. */
  function Call(name: string, args: seq<string>): string
    requires |args| >= 1
  {
    name + "(" + Join(args) + ")"
  }

  /** The input syntax the parser reads. */
  function Unparse(f: Formula): string
  {
    match f
    case True => "T"
    case False => "F"
    case Atom(p, ts) => if ts == [] then p else Call(p, TermTexts(ts))
    case Not(g) => Call("not", [Unparse(g)])
    case Binary(c, a, b) => Call(ConnectiveWord(c), [Unparse(a), Unparse(b)])
    case Quantified(q, x, body) => Call(QuantifierWord(q), [x, Unparse(body)])
  }

  /** The formulas the parser can produce: terms are alphanumeric variables,
      an atom without terms has a one-character alphanumeric name other than
      `T` and `F`, an atom with terms has an alphanumeric name that is not a
      keyword, and bound variables are alphanumeric. */
  predicate Parseable(f: Formula)
  {
    match f
    case True => true
    case False => true
    case Atom(p, ts) =>
      if ts == [] then |p| == 1 && IsAlnum(p[0]) && p != "T" && p != "F"
      else AllAlnum(p) && !Keyword(p) && forall k :: 0 <= k < |ts| ==> ts[k].Var? && AllAlnum(ts[k].name)
    case Not(g) => Parseable(g)
    case Binary(_, a, b) => Parseable(a) && Parseable(b)
    case Quantified(_, x, body) => AllAlnum(x) && Parseable(body)
  }

  predicate Bare(s: string)
  {
    forall k :: 0 <= k < |s| ==> s[k] != '(' && s[k] != ')' && s[k] != ','
  }

  lemma AlnumBare(s: string)
    requires AllAlnum(s)
    ensures Bare(s)
  {
  }

  lemma {:induction false} JoinBalanced(ps: seq<string>)
    requires |ps| >= 1 && forall p :: p in ps ==> Balanced(p)
    ensures Balanced(Join(ps))
    decreases |ps|
  {
    if |ps| > 1 {
      assert ps[0] in ps;
      assert forall p :: p in ps[1..] ==> p in ps;
      JoinBalanced(ps[1..]);
      Flat(",");
      Concat(ps[0], ",", 0);
      Concat(ps[0] + ",", Join(ps[1..]), 0);
    } else {
      assert ps[0] in ps;
    }
  }

  /** A bare name applied to balanced arguments is one argument. */
  lemma CallPiece(name: string, args: seq<string>)
    requires Bare(name) && |args| >= 1 && forall p :: p in args ==> Balanced(p)
    ensures Piece(Call(name, args))
  {
    var inner := Join(args);
    JoinBalanced(args);
    Flat(name);
    Bracketed(inner);
    Concat(name, "(" + inner + ")", 0);
    assert Call(name, args) == name + ("(" + inner + ")");
  }

  /** A balanced text in brackets is balanced and has no top-level comma. */
  lemma Bracketed(inner: string)
    requires Balanced(inner)
    ensures Piece("(" + inner + ")")
  {
    assert Depth("(") == 1 && NonNegativeAt("(", 0) && CommaFreeAt("(", 0) by {
      assert "("[..0] == "";
    }
    assert Depth(")") == -1 && NonNegativeAt(")", 1) && CommaFreeAt(")", 1) by {
      assert ")"[..0] == "";
    }
    NonNegativeAtLift(inner, 0, 1);
    NonNegativeAtInside(inner, 0);
    Concat("(", inner, 0);
    Concat("(" + inner, ")", 0);
  }

  /** The printer's three compound cases, one equation each. */
  lemma UnparseNot(g: Formula)
    ensures Unparse(Not(g)) == Call("not", [Unparse(g)])
  {
  }

  lemma UnparseBinary(c: Connective, a: Formula, b: Formula)
    ensures Unparse(Binary(c, a, b)) == Call(ConnectiveWord(c), [Unparse(a), Unparse(b)])
  {
  }

  lemma UnparseQuantified(q: Quantifier, x: Name, body: Formula)
    ensures Unparse(Quantified(q, x, body)) == Call(QuantifierWord(q), [x, Unparse(body)])
  {
  }

  lemma AtomPiece(p: Name, ts: seq<Term>)
    requires Parseable(Atom(p, ts))
    ensures Piece(Unparse(Atom(p, ts)))
  {
    AlnumBare(p);
    if ts == [] {
      Flat(p);
    } else {
      var names := TermTexts(ts);
      forall q | q in names ensures Balanced(q) {
        var k :| 0 <= k < |names| && names[k] == q;
        AlnumBare(q);
        Flat(q);
      }
      CallPiece(p, names);
    }
  }

  lemma NotPiece(g: Formula)
    requires Piece(Unparse(g))
    ensures Piece(Unparse(Not(g)))
  {
    UnparseNot(g);
    CallPiece("not", [Unparse(g)]);
  }

  lemma BinaryPiece(c: Connective, a: Formula, b: Formula)
    requires Piece(Unparse(a)) && Piece(Unparse(b))
    ensures Piece(Unparse(Binary(c, a, b)))
  {
    UnparseBinary(c, a, b);
    ConnectiveKeyword(c);
    CallPiece(ConnectiveWord(c), [Unparse(a), Unparse(b)]);
  }

  lemma QuantifiedPiece(q: Quantifier, x: Name, body: Formula)
    requires AllAlnum(x) && Piece(Unparse(body))
    ensures Piece(Unparse(Quantified(q, x, body)))
  {
    UnparseQuantified(q, x, body);
    AlnumBare(x);
    Flat(x);
    QuantifierKeywordWord(q);
    CallPiece(QuantifierWord(q), [x, Unparse(body)]);
  }

  /** The printed text of a parseable formula is one balanced argument
      without a top-level comma. */
  lemma {:induction false} UnparsePiece(f: Formula)
    requires Parseable(f)
    ensures Piece(Unparse(f))
  {
    match f
    case True => Flat("T");
    case False => Flat("F");
    case Atom(p, ts) => AtomPiece(p, ts);
    case Not(g) =>
      UnparsePiece(g);
      NotPiece(g);
    case Binary(c, a, b) =>
      UnparsePiece(a);
      UnparsePiece(b);
      BinaryPiece(c, a, b);
    case Quantified(q, x, body) =>
      UnparsePiece(body);
      QuantifiedPiece(q, x, body);
  }

  /** How the parser takes apart `name(a1,...,an)`: it is not one character,
      the name ends at the first `(`, the last `)` is the final character,
      and the arguments are split back exactly. */
  lemma ParseCall(name: string, args: seq<string>)
    requires Bare(name) && |args| >= 1 && forall p :: p in args ==> Piece(p)
    ensures var s := Call(name, args);
      && |s| != 1
      && FirstIndex(s, '(') == |name|
      && LastIndex(s, ')') == |s| - 1
      && s[..|name|] == name
      && ParseArgs(s[|name| + 1..|s| - 1]) == Some(args)
  {
    var s := Call(name, args);
    assert s[|name|] == '(';
    assert s[|s| - 1] == ')';
    assert s[..|name|] == name;
    assert s[|name| + 1..|s| - 1] == Join(args);
    ParseArgsJoin(args);
  }

  /** The variable names of an atom parse back to its terms. */
  lemma ParseTermsTexts(ts: seq<Term>)
    requires forall k :: 0 <= k < |ts| ==> ts[k].Var? && AllAlnum(ts[k].name)
    ensures ParseTerms(TermTexts(ts)) == Some(ts)
  {
    var names := TermTexts(ts);
    assert forall k :: 0 <= k < |names| ==> AllAlnum(names[k]) && Var(names[k]) == ts[k] by {
      forall k | 0 <= k < |names| ensures AllAlnum(names[k]) && Var(names[k]) == ts[k] {
        assert names[k] == TermText(ts[k]) == ts[k].name;
      }
    }
    var r := ParseTerms(names);
    assert r.Some?;
    assert r.value == ts;
  }

  lemma ParseUnparseAtom(p: Name, ts: seq<Term>)
    requires Parseable(Atom(p, ts))
    ensures ParseFormula(Unparse(Atom(p, ts))) == Some(Atom(p, ts))
  {
    if ts != [] {
      var names := TermTexts(ts);
      AlnumBare(p);
      forall q | q in names ensures Piece(q) {
        var k :| 0 <= k < |names| && names[k] == q;
        AlnumBare(q);
        Flat(q);
      }
      ParseCall(p, names);
      ParseTermsTexts(ts);
    }
  }

  lemma ParseUnparseNot(g: Formula)
    requires Parseable(g) && ParseFormula(Unparse(g)) == Some(g)
    ensures ParseFormula(Unparse(Not(g))) == Some(Not(g))
  {
    UnparseNot(g);
    UnparsePiece(g);
    ParseNotCall(Unparse(g), g);
  }

  lemma ParseNotCall(tg: string, g: Formula)
    requires Piece(tg) && ParseFormula(tg) == Some(g)
    ensures ParseFormula(Call("not", [tg])) == Some(Not(g))
  {
    assert Bare("not") by { assert AllAlnum("not"); }
    ParseCallCompound("not", [tg]);
    CompoundNot(Join([tg]), tg, g);
  }

  /** The negation case of `ParseCompound`, once its argument is known. */
  lemma CompoundNot(args: string, tg: string, g: Formula)
    requires Arguments(args, 1) == Some([tg]) && ParseFormula(tg) == Some(g)
    ensures ParseCompound("not", args) == Some(Not(g))
  {
  }

  /** A call is parsed by dispatching on its name with the joined arguments. */
  lemma ParseCallCompound(name: string, args: seq<string>)
    requires Bare(name) && |args| >= 1 && forall p :: p in args ==> Piece(p)
    ensures ParseFormula(Call(name, args)) == ParseCompound(name, Join(args))
    ensures Arguments(Join(args), |args|) == Some(args)
  {
    ParseCall(name, args);
    var s := Call(name, args);
    assert s[|name| + 1..|s| - 1] == Join(args);
  }

  /** The printed connective word is read back as the same connective. */
  lemma ConnectiveKeyword(c: Connective)
    ensures Bare(ConnectiveWord(c)) && ConnectiveWord(c) != "not"
    ensures BinaryKeyword(ConnectiveWord(c)) == Some(c)
  {
    match c
    case And => assert AllAlnum("and");
    case Or => assert AllAlnum("or");
    case Imp => assert AllAlnum("imp");
    case Iff => assert AllAlnum("iff");
  }

  /** The printed quantifier word is read back as the same quantifier. */
  lemma QuantifierKeywordWord(q: Quantifier)
    ensures Bare(QuantifierWord(q)) && QuantifierWord(q) != "not"
    ensures BinaryKeyword(QuantifierWord(q)).None? && QuantifierKeyword(QuantifierWord(q)) == Some(q)
  {
    match q
    case Forall => assert AllAlnum("forall");
    case Exists => assert AllAlnum("exists");
  }

  lemma ParseBinaryCall(c: Connective, ta: string, tb: string, a: Formula, b: Formula)
    requires Piece(ta) && Piece(tb)
    requires ParseFormula(ta) == Some(a) && ParseFormula(tb) == Some(b)
    ensures ParseFormula(Call(ConnectiveWord(c), [ta, tb])) == Some(Binary(c, a, b))
  {
    var w := ConnectiveWord(c);
    ConnectiveKeyword(c);
    ParseCallCompound(w, [ta, tb]);
    CompoundBinary(w, Join([ta, tb]), c, ta, tb, a, b);
  }

  /** The connective case of `ParseCompound`, once its two arguments are
      known. */
  lemma CompoundBinary(w: string, args: string, c: Connective, ta: string, tb: string, a: Formula, b: Formula)
    requires w != "not" && BinaryKeyword(w) == Some(c)
    requires Arguments(args, 2) == Some([ta, tb])
    requires ParseFormula(ta) == Some(a) && ParseFormula(tb) == Some(b)
    ensures ParseCompound(w, args) == Some(Binary(c, a, b))
  {
  }

  lemma ParseQuantifiedCall(q: Quantifier, x: string, tb: string, body: Formula)
    requires AllAlnum(x) && Piece(x) && Piece(tb)
    requires ParseFormula(tb) == Some(body)
    ensures ParseFormula(Call(QuantifierWord(q), [x, tb])) == Some(Quantified(q, x, body))
  {
    var w := QuantifierWord(q);
    QuantifierKeywordWord(q);
    ParseCallCompound(w, [x, tb]);
    CompoundQuantified(w, Join([x, tb]), q, x, tb, body);
  }

  /** The quantifier case of `ParseCompound`, once its two arguments are
      known. */
  lemma CompoundQuantified(w: string, args: string, q: Quantifier, x: string, tb: string, body: Formula)
    requires w != "not" && BinaryKeyword(w).None? && QuantifierKeyword(w) == Some(q)
    requires Arguments(args, 2) == Some([x, tb])
    requires AllAlnum(x) && ParseFormula(tb) == Some(body)
    ensures ParseCompound(w, args) == Some(Quantified(q, x, body))
  {
    assert ParseVariable(x) == Some(x);
  }

  lemma ParseUnparseBinary(c: Connective, a: Formula, b: Formula)
    requires Parseable(a) && ParseFormula(Unparse(a)) == Some(a)
    requires Parseable(b) && ParseFormula(Unparse(b)) == Some(b)
    ensures ParseFormula(Unparse(Binary(c, a, b))) == Some(Binary(c, a, b))
  {
    UnparseBinary(c, a, b);
    UnparsePiece(a);
    UnparsePiece(b);
    ParseBinaryCall(c, Unparse(a), Unparse(b), a, b);
  }

  lemma ParseUnparseQuantified(q: Quantifier, x: Name, body: Formula)
    requires AllAlnum(x) && Parseable(body) && ParseFormula(Unparse(body)) == Some(body)
    ensures ParseFormula(Unparse(Quantified(q, x, body))) == Some(Quantified(q, x, body))
  {
    UnparseQuantified(q, x, body);
    UnparsePiece(body);
    AlnumBare(x);
    Flat(x);
    ParseQuantifiedCall(q, x, Unparse(body), body);
  }

  /** Parsing the printed text of a parseable formula gives the formula back. */
  lemma {:induction false} ParseUnparse(f: Formula)
    requires Parseable(f)
    ensures ParseFormula(Unparse(f)) == Some(f)
  {
    match f
    case True =>
    case False =>
    case Atom(p, ts) => ParseUnparseAtom(p, ts);
    case Not(g) =>
      ParseUnparse(g);
      ParseUnparseNot(g);
    case Binary(c, a, b) =>
      ParseUnparse(a);
      ParseUnparse(b);
      ParseUnparseBinary(c, a, b);
    case Quantified(q, x, body) =>
      ParseUnparse(body);
      ParseUnparseQuantified(q, x, body);
  }
}
