/**
 The structure scan of the template parser (`_parseTemplate` and the
 control-structure helpers).  A cursor moves left to right over the template
 from one `{{ … }}` placeholder to the next.  The text between placeholders
 becomes text nodes; a placeholder whose trimmed content starts with `%` is a
 control tag (`for`, `if`, `endfor`, `endif`); any other placeholder is a
 variable.  The scan is flat: openers and closers are not matched.

 `Pieces` is the sequence of spans the cursor steps over; the node list, the
 variable set and the loop and conditional lists are folds over it.  The
 class in module `Parser` fills its fields with the same folds, one loop
 iteration at a time.
 */
module Scanner {
  import opened Wrappers
  import opened Strings

  /** One entry of `templateStructure`. */
  datatype Node =
    | Text(content: string)
    | Variable(name: string, position: nat)
    | ForStart(loopVar: string, collection: string, position: nat)
    | IfStart(condition: string, position: nat)
    | ForEnd(position: nat)
    | IfEnd(position: nat)

  /** One entry of `loops`: the `{{` and `}}` indices of the tag that opened it. */
  datatype Loop = Loop(variable: string, collection: string, start: nat, end: nat)

  /** One entry of `conditionals`. */
  datatype Conditional = Conditional(condition: string, start: nat, end: nat)

  /** What a control tag asks for, once its content is read. */
  datatype Directive =
    | ForDirective(loopVar: string, collection: string)
    | IfDirective(condition: string)
    | EndForDirective
    | EndIfDirective
    | NoDirective

  /**
   A span the cursor steps over: literal text, or a closed placeholder with
   its trimmed content, the index of its `{{` and the index of its `}}`.
   */
  datatype Piece = Lit(text: string) | Tag(content: string, start: nat, end: nat)

  /** The spans of `t` from the cursor position `pos` on: the scan stops at the end of the text. */
  function Pieces(t: string, pos: nat): seq<Piece>
    requires pos <= |t|
    decreases |t| - pos, 2
  {
    if pos == |t| then [] else PiecesBefore(t, pos, IndexOf(t, "{{", pos))
  }

  /**
   The spans from `pos` on when the next `{{` is at `vs` (or there is none):
   the rest of the text, or the text up to the `{{` followed by what starts there.
   */
  function PiecesBefore(t: string, pos: nat, vs: int): seq<Piece>
    requires pos < |t| && (vs == -1 || (pos <= vs && vs + 2 <= |t|))
    decreases |t| - pos, 1
  {
    if vs < 0 then [Lit(t[pos..])]
    else (if pos < vs then [Lit(t[pos..vs])] else []) + PiecesAt(t, vs, IndexOf(t, "}}", vs + 2))
  }

  /**
   The spans from a `{{` at `vs` on when the next `}}` is at `ve` (or there is
   none): an unclosed `{{` and all after it are text; otherwise the
   placeholder is read and the scan goes on after its `}}`.
   */
  function PiecesAt(t: string, vs: nat, ve: int): seq<Piece>
    requires vs + 2 <= |t| && (ve == -1 || (vs + 2 <= ve && ve + 2 <= |t|))
    decreases |t| - vs, 0
  {
    if ve < 0 then [Lit(t[vs..])]
    else
      var c := Trim(t[vs + 2..ve]);
      [Tag(c, vs, ve)] + Pieces(t, ve + 2)
  }

  // ---------------------------------------------------------------------------
  // Reading a control tag

  /** A tag whose trimmed content starts with `%`. */
  predicate IsControl(content: string)
  {
    StartsWith(content, "%")
  }

  /**
   One element of the two header patterns: a literal word, a run of one or
   more characters of a class that is skipped (`\s+`), or one that is
   captured (`(\w+)`, `(.+)`).
   */
  datatype Token = Literal(word: string) | Skip(skipped: CharClass) | Group(captured: CharClass)

  /** A pattern: tokens matched one after the other. */
  datatype Pattern = End | Then(token: Token, rest: Pattern)

  /** `for\s+(\w+)\s+in\s+(\w+)`: the loop variable and the collection. */
  const ForPattern: Pattern :=
    Then(Literal("for"), Then(Skip(Spaces), Then(Group(Words),
      Then(Skip(Spaces), Then(Literal("in"), Then(Skip(Spaces), Then(Group(Words), End)))))))

  /** `if\s+(.+)`: the condition, up to the end of the line. */
  const IfPattern: Pattern := Then(Literal("if"), Then(Skip(Spaces), Then(Group(NotLineTerminators), End)))

  function GroupCount(pat: Pattern): nat
  {
    match pat
    case End => 0
    case Then(t, rest) => (if t.Group? then 1 else 0) + GroupCount(rest)
  }

  /**
   The groups of a match of `pat` starting at `i`.  Every run is taken
   greedily and never given back.  For the two header patterns that is what
   the backtracking matcher finds: a shorter run would leave a character of
   its own class next, which the following token cannot start with; the last
   group of `if\s+(.+)` is the one exception, and the content it reads is
   trimmed, so a non-space character always follows the spaces.
   */
  function MatchAt(s: string, i: nat, pat: Pattern): (r: Option<seq<string>>)
    requires i <= |s|
    ensures r.Some? ==> |r.value| == GroupCount(pat)
    decreases pat
  {
    match pat
    case End => Some([])
    case Then(Literal(w), rest) =>
      if i + |w| <= |s| && s[i..i + |w|] == w then MatchAt(s, i + |w|, rest) else None
    case Then(Skip(k), rest) =>
      var n := RunLength(s, i, k);
      if n == 0 then None else MatchAt(s, i + n, rest)
    case Then(Group(k), rest) =>
      var n := RunLength(s, i, k);
      if n == 0 then None
      else
        match MatchAt(s, i + n, rest)
        case None => None
        case Some(gs) => Some([s[i..i + n]] + gs)
  }

  /** `s.match(pattern)` from `i` on: the groups of the leftmost match. */
  function Search(s: string, i: nat, pat: Pattern): (r: Option<seq<string>>)
    requires i <= |s|
    ensures r.Some? ==> |r.value| == GroupCount(pat)
    decreases |s| - i
  {
    match MatchAt(s, i, pat)
    case Some(gs) => Some(gs)
    case None => if i == |s| then None else Search(s, i + 1, pat)
  }

  /** `x` is a non-empty run of characters of the class `k`. */
  predicate IsRun(x: string, k: CharClass)
  {
    x != [] && forall i :: 0 <= i < |x| ==> InClass(x[i], k)
  }

  /** The text `pat` spells when its skipped and captured tokens are written as `fills`, in order. */
  function Spelled(pat: Pattern, fills: seq<string>): string
    decreases pat
  {
    match pat
    case End => []
    case Then(Literal(w), rest) => w + Spelled(rest, fills)
    case Then(_, rest) => if fills == [] then [] else fills[0] + Spelled(rest, fills[1..])
  }

  /** `fills` gives each skipped or captured token of `pat` a run of its class, and has nothing left over. */
  predicate FillsFit(pat: Pattern, fills: seq<string>)
    decreases pat
  {
    match pat
    case End => fills == []
    case Then(Literal(_), rest) => FillsFit(rest, fills)
    case Then(Skip(k), rest) => fills != [] && IsRun(fills[0], k) && FillsFit(rest, fills[1..])
    case Then(Group(k), rest) => fills != [] && IsRun(fills[0], k) && FillsFit(rest, fills[1..])
  }

  /** The runs among `fills` that `pat` captures, in order. */
  function Captured(pat: Pattern, fills: seq<string>): seq<string>
    decreases pat
  {
    match pat
    case End => []
    case Then(Literal(_), rest) => Captured(rest, fills)
    case Then(Skip(_), rest) => if fills == [] then [] else Captured(rest, fills[1..])
    case Then(Group(_), rest) => if fills == [] then [] else [fills[0]] + Captured(rest, fills[1..])
  }

  /**
   A match is sound: the text from `i` starts with the pattern written out
   with a run of the right class for each skipped or captured token, and the
   groups are the captured runs.
   */
  lemma {:induction false} MatchAtSound(s: string, i: nat, pat: Pattern)
    requires i <= |s| && MatchAt(s, i, pat).Some?
    ensures exists fills ::
      FillsFit(pat, fills) && StartsWith(s[i..], Spelled(pat, fills)) &&
      Captured(pat, fills) == MatchAt(s, i, pat).value
    decreases pat, 1
  {
    match pat
    case End =>
      assert FillsFit(pat, []) && StartsWith(s[i..], Spelled(pat, [])) && Captured(pat, []) == [];
    case Then(Literal(w), rest) =>
      MatchAtSound(s, i + |w|, rest);
      var f :| FillsFit(rest, f) && StartsWith(s[i + |w|..], Spelled(rest, f)) &&
        Captured(rest, f) == MatchAt(s, i + |w|, rest).value;
      LiteralFills(s, i, w, rest, f);
    case Then(_, _) =>
      RunSound(s, i, pat);
  }

  /** `MatchAtSound` for a pattern that starts with a skipped or captured run. */
  lemma {:induction false} RunSound(s: string, i: nat, pat: Pattern)
    requires i <= |s| && pat.Then? && !pat.token.Literal? && MatchAt(s, i, pat).Some?
    ensures exists fills ::
      FillsFit(pat, fills) && StartsWith(s[i..], Spelled(pat, fills)) &&
      Captured(pat, fills) == MatchAt(s, i, pat).value
    decreases pat, 0
  {
    var k := RunClass(pat.token);
    var n := RunLength(s, i, k);
    RunStep(s, i, pat);
    MatchAtSound(s, i + n, pat.rest);
    var f :| FillsFit(pat.rest, f) && StartsWith(s[i + n..], Spelled(pat.rest, f)) &&
      Captured(pat.rest, f) == MatchAt(s, i + n, pat.rest).value;
    RunIsRun(s, i, k);
    RunFills(s, i, n, pat.token, pat.rest, f);
    assert pat == Then(pat.token, pat.rest);
    var g := [s[i..i + n]] + f;
    assert FillsFit(pat, g) && StartsWith(s[i..], Spelled(pat, g)) && Captured(pat, g) == MatchAt(s, i, pat).value;
  }

  /** A match that starts with a run: the run is not empty, and the rest of the pattern matches after it. */
  lemma RunStep(s: string, i: nat, pat: Pattern)
    requires i <= |s| && pat.Then? && !pat.token.Literal? && MatchAt(s, i, pat).Some?
    ensures var n := RunLength(s, i, RunClass(pat.token));
      n > 0 && MatchAt(s, i + n, pat.rest).Some? &&
      MatchAt(s, i, pat).value ==
        if pat.token.Group? then [s[i..i + n]] + MatchAt(s, i + n, pat.rest).value
        else MatchAt(s, i + n, pat.rest).value
  {
  }

  /** A literal in front of a sound match of the rest of the pattern. */
  lemma LiteralFills(s: string, i: nat, w: string, rest: Pattern, f: seq<string>)
    requires i <= |s| && MatchAt(s, i, Then(Literal(w), rest)).Some?
    requires FillsFit(rest, f) && StartsWith(s[i + |w|..], Spelled(rest, f)) &&
      Captured(rest, f) == MatchAt(s, i + |w|, rest).value
    ensures FillsFit(Then(Literal(w), rest), f) && StartsWith(s[i..], Spelled(Then(Literal(w), rest), f)) &&
      Captured(Then(Literal(w), rest), f) == MatchAt(s, i, Then(Literal(w), rest)).value
  {
    PrefixThen(s, i, w, Spelled(rest, f));
  }

  /** The character class of a skipped or captured token. */
  function RunClass(tok: Token): CharClass
    requires !tok.Literal?
  {
    if tok.Skip? then tok.skipped else tok.captured
  }

  /** What `RunLength` measures, when it is not empty, is a run of its class. */
  lemma RunIsRun(s: string, i: nat, k: CharClass)
    requires i <= |s|
    ensures var n := RunLength(s, i, k); n > 0 ==> IsRun(s[i..i + n], k)
  {
    var n := RunLength(s, i, k);
    RunLengthIsMaximal(s, i, k);
    var x := s[i..i + n];
    forall j | 0 <= j < |x| ensures InClass(x[j], k) { assert x[j] == s[i + j]; }
  }

  /** One skipped or captured run in front of a spelling of the rest of the pattern. */
  lemma RunFills(s: string, i: nat, n: nat, tok: Token, rest: Pattern, f: seq<string>)
    requires !tok.Literal? && i + n <= |s| && IsRun(s[i..i + n], RunClass(tok))
    requires FillsFit(rest, f) && StartsWith(s[i + n..], Spelled(rest, f))
    ensures FillsFit(Then(tok, rest), [s[i..i + n]] + f)
    ensures StartsWith(s[i..], Spelled(Then(tok, rest), [s[i..i + n]] + f))
    ensures Captured(Then(tok, rest), [s[i..i + n]] + f) ==
      if tok.Group? then [s[i..i + n]] + Captured(rest, f) else Captured(rest, f)
  {
    var x := s[i..i + n];
    var g := [x] + f;
    assert g[0] == x && g[1..] == f;
    PrefixThen(s, i, x, Spelled(rest, f));
  }

  lemma PrefixThen(s: string, i: nat, x: string, y: string)
    requires i + |x| <= |s| && s[i..i + |x|] == x && StartsWith(s[i + |x|..], y)
    ensures StartsWith(s[i..], x + y)
  {
    assert s[i..][..|x|] == x && s[i..][|x|..] == s[i + |x|..];
    assert s[i..][..|x| + |y|] == s[i..][..|x|] + s[i..][|x|..][..|y|];
  }

  /** `Search` finds nothing exactly when the pattern matches at no position from `i` on. */
  lemma {:induction false} SearchNone(s: string, i: nat, pat: Pattern)
    requires i <= |s|
    ensures Search(s, i, pat).None? ==> forall k :: i <= k <= |s| ==> MatchAt(s, k, pat).None?
    ensures (forall k :: i <= k <= |s| ==> MatchAt(s, k, pat).None?) ==> Search(s, i, pat).None?
    decreases |s| - i
  {
    if MatchAt(s, i, pat).None? && i < |s| {
      SearchNone(s, i + 1, pat);
    }
  }

  /** `Search` gives the groups of the leftmost position from `i` on where the pattern matches. */
  lemma {:induction false} SearchLeftmost(s: string, i: nat, k: nat, pat: Pattern)
    requires i <= k <= |s| && MatchAt(s, k, pat).Some?
    requires forall j :: i <= j < k ==> MatchAt(s, j, pat).None?
    ensures Search(s, i, pat) == MatchAt(s, k, pat)
    decreases k - i
  {
    if i < k {
      assert MatchAt(s, i, pat).None?;
      SearchLeftmost(s, i + 1, k, pat);
    }
  }

  /**
   `_parseControlStructure`: the directive of a control tag.  The `%` is
   dropped and the rest trimmed; `for ` and `if ` headers must match their
   patterns, and a tag that starts with `endfor` or `endif` closes a block.
   */
  function Classify(content: string): Directive
    requires IsControl(content)
  {
    var cc := Trim(content[1..]);
    if StartsWith(cc, "for ") then
      assert GroupCount(ForPattern) == 2;
      match Search(cc, 0, ForPattern)
      case Some(gs) => ForDirective(gs[0], gs[1])
      case None => NoDirective
    else if StartsWith(cc, "if ") then
      assert GroupCount(IfPattern) == 1;
      match Search(cc, 0, IfPattern)
      case Some(gs) => IfDirective(Trim(gs[0]))
      case None => NoDirective
    else if StartsWith(cc, "endfor") then EndForDirective
    else if StartsWith(cc, "endif") then EndIfDirective
    else NoDirective
  }

  // ---------------------------------------------------------------------------
  // What each span contributes

  /** The nodes a control tag with `{{` at `start` emits. */
  function DirectiveNodes(d: Directive, start: nat): seq<Node>
  {
    match d
    case ForDirective(a, c) => [ForStart(a, c, start)]
    case IfDirective(e) => [IfStart(e, start)]
    case EndForDirective => [ForEnd(start)]
    case EndIfDirective => [IfEnd(start)]
    case NoDirective => []
  }

  function NodesOf(p: Piece): seq<Node>
  {
    match p
    case Lit(x) => [Text(x)]
    case Tag(c, s, _) => if IsControl(c) then DirectiveNodes(Classify(c), s) else [Variable(c, s)]
  }

  function LoopsOfPiece(p: Piece): seq<Loop>
  {
    if p.Tag? && IsControl(p.content) && Classify(p.content).ForDirective? then
      [Loop(Classify(p.content).loopVar, Classify(p.content).collection, p.start, p.end)]
    else []
  }

  function ConditionalsOfPiece(p: Piece): seq<Conditional>
  {
    if p.Tag? && IsControl(p.content) && Classify(p.content).IfDirective? then
      [Conditional(Classify(p.content).condition, p.start, p.end)]
    else []
  }

  /** `variables.add(name)` on an insertion-ordered set. */
  function Add(vars: seq<string>, name: string): seq<string>
  {
    if name in vars then vars else vars + [name]
  }

  /** A variable tag adds its content to the set; nothing else does. */
  function AddPiece(vars: seq<string>, p: Piece): seq<string>
  {
    if p.Tag? && !IsControl(p.content) then Add(vars, p.content) else vars
  }

  function Structure(ps: seq<Piece>): seq<Node>
  {
    if ps == [] then [] else NodesOf(ps[0]) + Structure(ps[1..])
  }

  function LoopsOf(ps: seq<Piece>): seq<Loop>
  {
    if ps == [] then [] else LoopsOfPiece(ps[0]) + LoopsOf(ps[1..])
  }

  function ConditionalsOf(ps: seq<Piece>): seq<Conditional>
  {
    if ps == [] then [] else ConditionalsOfPiece(ps[0]) + ConditionalsOf(ps[1..])
  }

  /** The variable set after the spans are read in order, starting from `vars`. */
  function AddAll(vars: seq<string>, ps: seq<Piece>): seq<string>
    decreases |ps|
  {
    if ps == [] then vars else AddAll(AddPiece(vars, ps[0]), ps[1..])
  }

  // ---------------------------------------------------------------------------
  // The folds split where the spans are split

  lemma {:induction false} StructureAppend(a: seq<Piece>, b: seq<Piece>)
    ensures Structure(a + b) == Structure(a) + Structure(b)
    decreases |a|
  {
    if a == [] {
      assert a + b == b;
    } else {
      assert (a + b)[0] == a[0] && (a + b)[1..] == a[1..] + b;
      StructureAppend(a[1..], b);
    }
  }

  lemma {:induction false} LoopsAppend(a: seq<Piece>, b: seq<Piece>)
    ensures LoopsOf(a + b) == LoopsOf(a) + LoopsOf(b)
    decreases |a|
  {
    if a == [] {
      assert a + b == b;
    } else {
      assert (a + b)[0] == a[0] && (a + b)[1..] == a[1..] + b;
      LoopsAppend(a[1..], b);
    }
  }

  lemma {:induction false} ConditionalsAppend(a: seq<Piece>, b: seq<Piece>)
    ensures ConditionalsOf(a + b) == ConditionalsOf(a) + ConditionalsOf(b)
    decreases |a|
  {
    if a == [] {
      assert a + b == b;
    } else {
      assert (a + b)[0] == a[0] && (a + b)[1..] == a[1..] + b;
      ConditionalsAppend(a[1..], b);
    }
  }

  lemma {:induction false} AddAllAppend(vars: seq<string>, a: seq<Piece>, b: seq<Piece>)
    ensures AddAll(vars, a + b) == AddAll(AddAll(vars, a), b)
    decreases |a|
  {
    if a == [] {
      assert a + b == b;
    } else {
      assert (a + b)[0] == a[0] && (a + b)[1..] == a[1..] + b;
      AddAllAppend(AddPiece(vars, a[0]), a[1..], b);
    }
  }

  // ---------------------------------------------------------------------------
  // Properties of the scan

  /** The text a span covers in `t`: a literal covers itself, a placeholder its `{{ … }}`. */
  function Covered(t: string, p: Piece): string
  {
    match p
    case Lit(x) => x
    case Tag(_, s, e) => if s <= e + 2 <= |t| then t[s..e + 2] else []
  }

  function CoveredAll(t: string, ps: seq<Piece>): string
  {
    if ps == [] then [] else Covered(t, ps[0]) + CoveredAll(t, ps[1..])
  }

  /**
   A span is well formed: a literal is not empty; a placeholder starts with
   `{{`, ends at the first `}}` after it, and holds the trimmed text between.
   */
  predicate WellFormedPiece(t: string, p: Piece)
  {
    match p
    case Lit(x) => x != []
    case Tag(c, s, e) =>
      OccursAt(t, "{{", s) && OccursAt(t, "}}", e) && s + 2 <= e &&
      c == Trim(t[s + 2..e]) && forall j :: s + 2 <= j < e ==> !OccursAt(t, "}}", j)
  }

  lemma CoveredAllAppend(t: string, a: seq<Piece>, b: seq<Piece>)
    ensures CoveredAll(t, a + b) == CoveredAll(t, a) + CoveredAll(t, b)
    decreases |a|
  {
    if a == [] {
      assert a + b == b;
    } else {
      assert (a + b)[0] == a[0] && (a + b)[1..] == a[1..] + b;
      CoveredAllAppend(t, a[1..], b);
    }
  }

  lemma CoveredLit(t: string, x: string)
    ensures CoveredAll(t, [Lit(x)]) == x
  {
    assert [Lit(x)][1..] == [];
  }

  lemma CoveredCons(t: string, p: Piece, rest: seq<Piece>)
    ensures CoveredAll(t, [p] + rest) == Covered(t, p) + CoveredAll(t, rest)
  {
    assert ([p] + rest)[1..] == rest;
  }

  /** A placeholder followed by spans that spell out the rest of the text spells out the text from its start. */
  lemma {:induction false} CoveredTagThen(t: string, c: string, vs: nat, ve: nat, rest: seq<Piece>)
    requires vs <= ve + 2 <= |t| && CoveredAll(t, rest) == t[ve + 2..]
    ensures CoveredAll(t, [Tag(c, vs, ve)] + rest) == t[vs..]
  {
    CoveredCons(t, Tag(c, vs, ve), rest);
    SuffixSplit(t, vs, ve + 2);
  }

  /** The spans, read in order, spell out the text from the cursor to the end. */
  lemma {:induction false} PiecesSpellText(t: string, pos: nat)
    requires pos <= |t|
    ensures CoveredAll(t, Pieces(t, pos)) == t[pos..]
    decreases |t| - pos, 2
  {
    if pos < |t| {
      PiecesBeforeSpellText(t, pos, IndexOf(t, "{{", pos));
    }
  }

  lemma {:induction false} PiecesBeforeSpellText(t: string, pos: nat, vs: int)
    requires pos < |t| && (vs == -1 || (pos <= vs && vs + 2 <= |t|))
    ensures CoveredAll(t, PiecesBefore(t, pos, vs)) == t[pos..]
    decreases |t| - pos, 1
  {
    if vs < 0 {
      CoveredLit(t, t[pos..]);
    } else {
      var after := PiecesAt(t, vs, IndexOf(t, "}}", vs + 2));
      PiecesAtSpellText(t, vs, IndexOf(t, "}}", vs + 2));
      if pos < vs {
        assert PiecesBefore(t, pos, vs) == [Lit(t[pos..vs])] + after;
        CoveredCons(t, Lit(t[pos..vs]), after);
        SuffixSplit(t, pos, vs);
      } else {
        assert PiecesBefore(t, pos, vs) == [] + after == after;
      }
    }
  }

  lemma {:induction false} PiecesAtSpellText(t: string, vs: nat, ve: int)
    requires vs + 2 <= |t| && (ve == -1 || (vs + 2 <= ve && ve + 2 <= |t|))
    ensures CoveredAll(t, PiecesAt(t, vs, ve)) == t[vs..]
    decreases |t| - vs, 0
  {
    if ve >= 0 {
      var rest := Pieces(t, ve + 2);
      PiecesSpellText(t, ve + 2);
      CoveredTagThen(t, Trim(t[vs + 2..ve]), vs, ve, rest);
    } else {
      CoveredLit(t, t[vs..]);
    }
  }

  /**
   Every span is well formed and every placeholder lies at or after the cursor.
   */
  lemma {:induction false} PiecesWellFormed(t: string, pos: nat)
    requires pos <= |t|
    ensures forall p :: p in Pieces(t, pos) ==> WellFormedPiece(t, p)
    ensures forall p :: p in Pieces(t, pos) && p.Tag? ==> pos <= p.start
    decreases |t| - pos, 3
  {
    if pos < |t| {
      PiecesBeforeWellFormed(t, pos, IndexOf(t, "{{", pos));
    }
  }

  lemma {:induction false} PiecesBeforeWellFormed(t: string, pos: nat, vs: int)
    requires pos < |t| && (vs == -1 || (pos <= vs && vs + 2 <= |t| && OccursAt(t, "{{", vs)))
    ensures forall p :: p in PiecesBefore(t, pos, vs) ==> WellFormedPiece(t, p)
    ensures forall p :: p in PiecesBefore(t, pos, vs) && p.Tag? ==> pos <= p.start
    decreases |t| - pos, 2
  {
    if vs >= 0 {
      var ve := IndexOf(t, "}}", vs + 2);
      PiecesAtWellFormed(t, vs, ve);
    }
  }

  lemma {:induction false} PiecesAtWellFormed(t: string, vs: nat, ve: int)
    requires vs + 2 <= |t| && OccursAt(t, "{{", vs)
    requires ve == IndexOf(t, "}}", vs + 2) && (ve == -1 || ve + 2 <= |t|)
    ensures forall p :: p in PiecesAt(t, vs, ve) ==> WellFormedPiece(t, p)
    ensures forall p :: p in PiecesAt(t, vs, ve) && p.Tag? ==> vs <= p.start
    decreases |t| - vs, 1
  {
    if ve >= 0 {
      TagThenPiecesWellFormed(t, vs, ve);
    } else {
      assert PiecesAt(t, vs, ve) == [Lit(t[vs..])];
    }
  }

  lemma {:induction false} TagThenPiecesWellFormed(t: string, vs: nat, ve: int)
    requires vs + 2 <= |t| && OccursAt(t, "{{", vs)
    requires ve >= 0 && ve == IndexOf(t, "}}", vs + 2) && ve + 2 <= |t|
    ensures forall p :: p in [Tag(Trim(t[vs + 2..ve]), vs, ve)] + Pieces(t, ve + 2) ==> WellFormedPiece(t, p)
    ensures forall p :: p in [Tag(Trim(t[vs + 2..ve]), vs, ve)] + Pieces(t, ve + 2) && p.Tag? ==> vs <= p.start
    decreases |t| - vs, 0
  {
    PiecesWellFormed(t, ve + 2);
    TagWellFormed(t, vs, ve);
    ConsWellFormed(t, Tag(Trim(t[vs + 2..ve]), vs, ve), Pieces(t, ve + 2));
  }

  lemma TagWellFormed(t: string, vs: nat, ve: int)
    requires vs + 2 <= |t| && OccursAt(t, "{{", vs)
    requires ve >= 0 && ve == IndexOf(t, "}}", vs + 2)
    ensures WellFormedPiece(t, Tag(Trim(t[vs + 2..ve]), vs, ve))
  {
  }

  lemma {:induction false} ConsWellFormed(t: string, tag: Piece, rest: seq<Piece>)
    requires tag.Tag? && WellFormedPiece(t, tag)
    requires forall p :: p in rest ==> WellFormedPiece(t, p)
    requires forall p :: p in rest && p.Tag? ==> tag.start <= p.start
    ensures forall p :: p in [tag] + rest ==> WellFormedPiece(t, p)
    ensures forall p :: p in [tag] + rest && p.Tag? ==> tag.start <= p.start
  {
    forall p | p in [tag] + rest
      ensures WellFormedPiece(t, p) && (p.Tag? ==> tag.start <= p.start)
    {
      if p != tag {
        assert p in rest;
      }
    }
  }

  /** Every text node the scan emits is non-empty. */
  lemma {:induction false} TextNodesNonEmpty(ps: seq<Piece>)
    requires Lit([]) !in ps
    ensures Text([]) !in Structure(ps)
    decreases |ps|
  {
    if ps != [] {
      assert ps[0] != Lit([]);
      assert Lit([]) !in ps[1..];
      TextNodesNonEmpty(ps[1..]);
      NodesOfNonEmpty(ps[0]);
      assert Structure(ps) == NodesOf(ps[0]) + Structure(ps[1..]);
      NotInAppend(Text([]), NodesOf(ps[0]), Structure(ps[1..]));
    }
  }

  lemma NodesOfNonEmpty(p: Piece)
    requires p != Lit([])
    ensures Text([]) !in NodesOf(p)
  {
  }

  lemma NotInAppend<T>(x: T, a: seq<T>, b: seq<T>)
    requires x !in a && x !in b
    ensures x !in a + b
  {
  }

  /** The scan of a template emits no empty text node. */
  lemma ScanTextNodesNonEmpty(t: string)
    ensures Text([]) !in Structure(Pieces(t, 0))
  {
    PiecesWellFormed(t, 0);
    TextNodesNonEmpty(Pieces(t, 0));
  }

  /**
   Walking the spans from `pos`: each placeholder starts where the span
   before it ends, and no `{{` of `t` starts inside a literal span, except
   in a final literal that starts with a `{{` that no later `}}` closes.
   */
  predicate NoTagMissed(t: string, pos: nat, ps: seq<Piece>)
    decreases |ps|
  {
    ps == [] ||
    match ps[0]
    case Lit(x) =>
      pos + |x| <= |t| &&
      ((forall j :: pos <= j < pos + |x| ==> !OccursAt(t, "{{", j)) ||
       (|ps| == 1 && pos + |x| == |t| && OccursAt(t, "{{", pos) &&
        forall j :: pos + 2 <= j <= |t| ==> !OccursAt(t, "}}", j))) &&
      NoTagMissed(t, pos + |x|, ps[1..])
    case Tag(_, s, e) => s == pos && NoTagMissed(t, e + 2, ps[1..])
  }

  /** The scan misses no placeholder: every `{{` it steps over as text is an unclosed one at the very end. */
  lemma {:induction false} PiecesMissNoTag(t: string, pos: nat)
    requires pos <= |t|
    ensures NoTagMissed(t, pos, Pieces(t, pos))
    decreases |t| - pos, 4
  {
    if pos < |t| {
      PiecesBeforeMissNoTag(t, pos, IndexOf(t, "{{", pos));
    }
  }

  lemma {:induction false} PiecesBeforeMissNoTag(t: string, pos: nat, vs: int)
    requires pos < |t| && vs == IndexOf(t, "{{", pos)
    ensures vs == -1 || (pos <= vs && vs + 2 <= |t|)
    ensures NoTagMissed(t, pos, PiecesBefore(t, pos, vs))
    decreases |t| - pos, 3
  {
    if vs >= 0 {
      OpenedMissNoTag(t, pos, vs);
    } else {
      FinalLitMissNoTag(t, pos);
    }
  }

  lemma {:induction false} OpenedMissNoTag(t: string, pos: nat, vs: nat)
    requires pos <= vs && vs + 2 <= |t| && OccursAt(t, "{{", vs)
    requires forall j :: pos <= j < vs ==> !OccursAt(t, "{{", j)
    ensures NoTagMissed(t, pos, (if pos < vs then [Lit(t[pos..vs])] else []) + PiecesAt(t, vs, IndexOf(t, "}}", vs + 2)))
    decreases |t| - pos, 2
  {
    var ve := IndexOf(t, "}}", vs + 2);
    PiecesAtMissNoTag(t, vs, ve);
    if pos < vs {
      LitThenMissNoTag(t, pos, vs, PiecesAt(t, vs, ve));
    } else {
      assert [] + PiecesAt(t, vs, ve) == PiecesAt(t, vs, ve);
    }
  }

  lemma LitThenMissNoTag(t: string, pos: nat, vs: nat, rest: seq<Piece>)
    requires pos < vs <= |t|
    requires forall j :: pos <= j < vs ==> !OccursAt(t, "{{", j)
    requires NoTagMissed(t, vs, rest)
    ensures NoTagMissed(t, pos, [Lit(t[pos..vs])] + rest)
  {
    assert ([Lit(t[pos..vs])] + rest)[1..] == rest;
  }

  /** Text with no `{{` after `pos` is one span. */
  lemma FinalLitMissNoTag(t: string, pos: nat)
    requires pos < |t| && IndexOf(t, "{{", pos) == -1
    ensures NoTagMissed(t, pos, [Lit(t[pos..])])
  {
    assert [Lit(t[pos..])][1..] == [];
    assert NoTagMissed(t, |t|, []);
  }

  lemma {:induction false} PiecesAtMissNoTag(t: string, vs: nat, ve: int)
    requires vs + 2 <= |t| && OccursAt(t, "{{", vs) && ve == IndexOf(t, "}}", vs + 2)
    ensures ve == -1 || (vs + 2 <= ve && ve + 2 <= |t|)
    ensures NoTagMissed(t, vs, PiecesAt(t, vs, ve))
    decreases |t| - vs, 1
  {
    if ve >= 0 {
      TagThenMissNoTag(t, vs, ve);
    } else {
      UnclosedMissNoTag(t, vs);
    }
  }

  lemma {:induction false} TagThenMissNoTag(t: string, vs: nat, ve: nat)
    requires vs + 2 <= ve && ve + 2 <= |t|
    ensures NoTagMissed(t, vs, [Tag(Trim(t[vs + 2..ve]), vs, ve)] + Pieces(t, ve + 2))
    decreases |t| - vs, 0
  {
    PiecesMissNoTag(t, ve + 2);
    ConsTagMissNoTag(t, Trim(t[vs + 2..ve]), vs, ve, Pieces(t, ve + 2));
  }

  lemma ConsTagMissNoTag(t: string, c: string, vs: nat, ve: nat, rest: seq<Piece>)
    requires NoTagMissed(t, ve + 2, rest)
    ensures NoTagMissed(t, vs, [Tag(c, vs, ve)] + rest)
  {
    assert ([Tag(c, vs, ve)] + rest)[1..] == rest;
  }

  /** A final `{{` with no `}}` after it is stepped over as text. */
  lemma UnclosedMissNoTag(t: string, vs: nat)
    requires vs + 2 <= |t| && OccursAt(t, "{{", vs) && IndexOf(t, "}}", vs + 2) == -1
    ensures NoTagMissed(t, vs, [Lit(t[vs..])])
  {
    assert [Lit(t[vs..])][1..] == [];
    assert vs + |t[vs..]| == |t|;
    assert forall j :: vs + 2 <= j <= |t| ==> !OccursAt(t, "}}", j);
    assert NoTagMissed(t, |t|, []);
  }

  /** The content of every non-control placeholder among the spans. */
  function VariableNames(ps: seq<Piece>): set<string>
  {
    set i | 0 <= i < |ps| && ps[i].Tag? && !IsControl(ps[i].content) :: ps[i].content
  }

  predicate NoDuplicates(s: seq<string>)
  {
    forall i, j :: 0 <= i < j < |s| ==> s[i] != s[j]
  }

  /**
   The variable set after the scan holds exactly the names it held before
   and the contents of the variable placeholders, each once.
   */
  lemma {:induction false} AddAllIsUnion(vars: seq<string>, ps: seq<Piece>)
    requires NoDuplicates(vars)
    ensures NoDuplicates(AddAll(vars, ps))
    ensures forall x :: x in AddAll(vars, ps) <==> x in vars || x in VariableNames(ps)
    decreases |ps|
  {
    if ps != [] {
      var next := AddPiece(vars, ps[0]);
      assert NoDuplicates(next);
      AddAllIsUnion(next, ps[1..]);
      forall x
        ensures x in VariableNames(ps) <==> x in VariableNames(ps[1..]) || (ps[0].Tag? && !IsControl(ps[0].content) && x == ps[0].content)
      {
        if x in VariableNames(ps) {
          var i :| 0 <= i < |ps| && ps[i].Tag? && !IsControl(ps[i].content) && ps[i].content == x;
          if i > 0 {
            assert ps[1..][i - 1] == ps[i];
          }
        }
        if x in VariableNames(ps[1..]) {
          var i :| 0 <= i < |ps[1..]| && ps[1..][i].Tag? && !IsControl(ps[1..][i].content) && ps[1..][i].content == x;
          assert ps[i + 1] == ps[1..][i];
        }
      }
    }
  }

  /** Every variable placeholder has a variable node at the index of its `{{`. */
  lemma {:induction false} VariableNodeAtTag(ps: seq<Piece>, i: nat)
    requires i < |ps| && ps[i].Tag? && !IsControl(ps[i].content)
    ensures Variable(ps[i].content, ps[i].start) in Structure(ps)
    decreases |ps|
  {
    if i > 0 {
      assert ps[1..][i - 1] == ps[i];
      VariableNodeAtTag(ps[1..], i - 1);
    }
  }

  /** The `for_start` node an entry of `loops` is recorded with. */
  function LoopNode(l: Loop): Node
  {
    ForStart(l.variable, l.collection, l.start)
  }

  function LoopNodes(ls: seq<Loop>): seq<Node>
  {
    if ls == [] then [] else [LoopNode(ls[0])] + LoopNodes(ls[1..])
  }

  /** The `for_start` nodes of a node list, in order. */
  function ForStarts(ns: seq<Node>): seq<Node>
  {
    if ns == [] then [] else (if ns[0].ForStart? then [ns[0]] else []) + ForStarts(ns[1..])
  }

  lemma {:induction false} ForStartsAppend(a: seq<Node>, b: seq<Node>)
    ensures ForStarts(a + b) == ForStarts(a) + ForStarts(b)
    decreases |a|
  {
    if a == [] {
      assert a + b == b;
    } else {
      assert (a + b)[0] == a[0] && (a + b)[1..] == a[1..] + b;
      ForStartsAppend(a[1..], b);
    }
  }

  lemma {:induction false} LoopNodesAppend(a: seq<Loop>, b: seq<Loop>)
    ensures LoopNodes(a + b) == LoopNodes(a) + LoopNodes(b)
    decreases |a|
  {
    if a == [] {
      assert a + b == b;
    } else {
      assert (a + b)[0] == a[0] && (a + b)[1..] == a[1..] + b;
      LoopNodesAppend(a[1..], b);
    }
  }

  lemma PieceLoopMatchesForStart(p: Piece)
    ensures LoopNodes(LoopsOfPiece(p)) == ForStarts(NodesOf(p))
  {
    if p.Tag? && IsControl(p.content) {
      match Classify(p.content)
      case ForDirective(a, c) =>
        assert NodesOf(p) == [ForStart(a, c, p.start)];
        assert ForStarts(NodesOf(p)) == [ForStart(a, c, p.start)] + ForStarts([]);
      case _ =>
    }
  }

  /**
   `loops` and the `for_start` nodes correspond one to one and in order:
   each loop entry has a `for_start` node with its variable, collection and
   position, and no other `for_start` node exists.
   */
  lemma {:induction false} LoopsMatchForStarts(ps: seq<Piece>)
    ensures LoopNodes(LoopsOf(ps)) == ForStarts(Structure(ps))
    decreases |ps|
  {
    if ps != [] {
      LoopsMatchForStarts(ps[1..]);
      LoopNodesAppend(LoopsOfPiece(ps[0]), LoopsOf(ps[1..]));
      ForStartsAppend(NodesOf(ps[0]), Structure(ps[1..]));
      PieceLoopMatchesForStart(ps[0]);
    }
  }

  /** The `if_start` node an entry of `conditionals` is recorded with. */
  function ConditionalNode(c: Conditional): Node
  {
    IfStart(c.condition, c.start)
  }

  function ConditionalNodes(cs: seq<Conditional>): seq<Node>
  {
    if cs == [] then [] else [ConditionalNode(cs[0])] + ConditionalNodes(cs[1..])
  }

  /** The `if_start` nodes of a node list, in order. */
  function IfStarts(ns: seq<Node>): seq<Node>
  {
    if ns == [] then [] else (if ns[0].IfStart? then [ns[0]] else []) + IfStarts(ns[1..])
  }

  lemma {:induction false} IfStartsAppend(a: seq<Node>, b: seq<Node>)
    ensures IfStarts(a + b) == IfStarts(a) + IfStarts(b)
    decreases |a|
  {
    if a == [] {
      assert a + b == b;
    } else {
      assert (a + b)[0] == a[0] && (a + b)[1..] == a[1..] + b;
      IfStartsAppend(a[1..], b);
    }
  }

  lemma {:induction false} ConditionalNodesAppend(a: seq<Conditional>, b: seq<Conditional>)
    ensures ConditionalNodes(a + b) == ConditionalNodes(a) + ConditionalNodes(b)
    decreases |a|
  {
    if a == [] {
      assert a + b == b;
    } else {
      assert (a + b)[0] == a[0] && (a + b)[1..] == a[1..] + b;
      ConditionalNodesAppend(a[1..], b);
    }
  }

  lemma PieceConditionalMatchesIfStart(p: Piece)
    ensures ConditionalNodes(ConditionalsOfPiece(p)) == IfStarts(NodesOf(p))
  {
    if p.Tag? && IsControl(p.content) {
      match Classify(p.content)
      case IfDirective(e) =>
        assert NodesOf(p) == [IfStart(e, p.start)];
        assert IfStarts(NodesOf(p)) == [IfStart(e, p.start)] + IfStarts([]);
      case _ =>
    }
  }

  /** `conditionals` and the `if_start` nodes correspond one to one and in order. */
  lemma {:induction false} ConditionalsMatchIfStarts(ps: seq<Piece>)
    ensures ConditionalNodes(ConditionalsOf(ps)) == IfStarts(Structure(ps))
    decreases |ps|
  {
    if ps != [] {
      ConditionalsMatchIfStarts(ps[1..]);
      ConditionalNodesAppend(ConditionalsOfPiece(ps[0]), ConditionalsOf(ps[1..]));
      IfStartsAppend(NodesOf(ps[0]), Structure(ps[1..]));
      PieceConditionalMatchesIfStart(ps[0]);
    }
  }

  /**
   A control tag that is not a conforming `for`, `if`, `endfor` or `endif`
   leaves no trace in the structure, the loops or the conditionals: the scan
   reads as if the tag were not there.
   */
  lemma IgnoredTagLeavesNoTrace(a: seq<Piece>, p: Piece, b: seq<Piece>)
    requires p.Tag? && IsControl(p.content) && Classify(p.content) == NoDirective
    ensures Structure(a + [p] + b) == Structure(a + b)
    ensures LoopsOf(a + [p] + b) == LoopsOf(a + b)
    ensures ConditionalsOf(a + [p] + b) == ConditionalsOf(a + b)
  {
    SilentPieceInStructure(a, p, b);
    SilentPieceInLoops(a, p, b);
    SilentPieceInConditionals(a, p, b);
  }

  lemma {:induction false} SilentPieceInStructure(a: seq<Piece>, p: Piece, b: seq<Piece>)
    requires NodesOf(p) == []
    ensures Structure(a + [p] + b) == Structure(a + b)
  {
    assert a + [p] + b == a + ([p] + b);
    assert ([p] + b)[0] == p && ([p] + b)[1..] == b;
    assert Structure([p] + b) == [] + Structure(b) == Structure(b);
    StructureAppend(a, [p] + b);
    StructureAppend(a, b);
  }

  lemma {:induction false} SilentPieceInLoops(a: seq<Piece>, p: Piece, b: seq<Piece>)
    requires LoopsOfPiece(p) == []
    ensures LoopsOf(a + [p] + b) == LoopsOf(a + b)
  {
    assert a + [p] + b == a + ([p] + b);
    assert ([p] + b)[0] == p && ([p] + b)[1..] == b;
    assert LoopsOf([p] + b) == [] + LoopsOf(b) == LoopsOf(b);
    LoopsAppend(a, [p] + b);
    LoopsAppend(a, b);
  }

  lemma {:induction false} SilentPieceInConditionals(a: seq<Piece>, p: Piece, b: seq<Piece>)
    requires ConditionalsOfPiece(p) == []
    ensures ConditionalsOf(a + [p] + b) == ConditionalsOf(a + b)
  {
    assert a + [p] + b == a + ([p] + b);
    assert ([p] + b)[0] == p && ([p] + b)[1..] == b;
    assert ConditionalsOf([p] + b) == [] + ConditionalsOf(b) == ConditionalsOf(b);
    ConditionalsAppend(a, [p] + b);
    ConditionalsAppend(a, b);
  }

  /** A control tag never adds a variable, whatever its directive. */
  lemma ControlTagAddsNoVariable(vars: seq<string>, a: seq<Piece>, p: Piece, b: seq<Piece>)
    requires p.Tag? && IsControl(p.content)
    ensures AddAll(vars, a + [p] + b) == AddAll(vars, a + b)
  {
    AddAllAppend(vars, a + [p], b);
    AddAllAppend(vars, a, [p]);
    AddAllAppend(vars, a, b);
  }

  /** A template without `{{` scans as one text node, or as nothing when empty. */
  lemma NoPlaceholderIsText(t: string)
    requires Free(t, "{{")
    ensures Pieces(t, 0) == if t == [] then [] else [Lit(t)]
  {
    if t != [] {
      assert t[0..] == t;
      assert IndexOf(t, "{{", 0) < 0;
    }
  }

  // ---------------------------------------------------------------------------
  // Reading headers back

  /** A `for` header written with single spaces reads back its variable and collection. */
  lemma ForHeaderReads(a: string, c: string)
    requires IsWord(a) && IsWord(c)
    ensures Classify("% for " + a + " in " + c) == ForDirective(a, c)
  {
    var cc := "for " + a + " in " + c;
    ForHeaderLayout(a, c);
    ControlContent(cc);
    ForKeyword(cc);
    ForMatchReads(a, c);
    ForTagText(a, c);
    ClassifyFor("% " + cc, cc, a, c);
  }

  lemma ForKeyword(cc: string)
    requires |cc| >= 4 && cc[0..3] == "for" && cc[3] == ' '
    ensures StartsWith(cc, "for ")
  {
    assert cc[..4] == cc[0..3] + [cc[3]];
  }

  lemma ForTagText(a: string, c: string)
    ensures "% " + ("for " + a + " in " + c) == "% for " + a + " in " + c
  {
  }

  /** A control tag whose trimmed text starts with `for ` and matches the `for` pattern opens a loop. */
  lemma ClassifyFor(content: string, cc: string, a: string, c: string)
    requires IsControl(content) && Trim(content[1..]) == cc
    requires StartsWith(cc, "for ") && Search(cc, 0, ForPattern) == Some([a, c])
    ensures Classify(content) == ForDirective(a, c)
  {
  }

  /** The control tag `% ` + `cc` reads `cc` once the `%` is dropped, when `cc` starts and ends with no white space. */
  lemma ControlContent(cc: string)
    requires IsTrimmed(cc)
    ensures IsControl("% " + cc) && Trim(("% " + cc)[1..]) == cc
  {
    var content := "% " + cc;
    assert content[..1] == "%";
    assert content[1..] == [' '] + cc;
    assert ([' '] + cc)[1..] == cc;
    TrimmedIsFixpoint(cc);
  }

  /** Where the parts of a single-spaced `for` header sit. */
  lemma ForHeaderLayout(a: string, c: string)
    requires IsWord(a) && IsWord(c)
    ensures var s := "for " + a + " in " + c;
      var n := |a|;
      |s| == 8 + n + |c| && s[0..3] == "for" && s[3] == ' ' && s[4 + n] == ' ' &&
      s[5 + n..7 + n] == "in" && s[7 + n] == ' ' &&
      s[4..4 + n] == a && s[8 + n..8 + n + |c|] == c && IsTrimmed(s)
  {
    var s := "for " + a + " in " + c;
    var n := |a|;
    var x := "for " + a;
    var y := x + " in ";
    assert s == y + c;
    assert s[..|y|] == y && s[|y|..] == c;
    assert y[..|x|] == x && y[|x|..] == " in ";
    assert x[..4] == "for " && x[4..] == a;
  }

  lemma MatchLiteral(s: string, i: nat, w: string, rest: Pattern)
    requires i + |w| <= |s| && s[i..i + |w|] == w
    ensures MatchAt(s, i, Then(Literal(w), rest)) == MatchAt(s, i + |w|, rest)
  {
  }

  lemma MatchIn(s: string, i: nat, rest: Pattern)
    requires i + 2 <= |s| && s[i] == 'i' && s[i + 1] == 'n'
    ensures MatchAt(s, i, Then(Literal("in"), rest)) == MatchAt(s, i + 2, rest)
  {
    assert s[i..i + 2] == "in";
    MatchLiteral(s, i, "in", rest);
  }

  lemma MatchSkip(s: string, i: nat, k: CharClass, n: nat, rest: Pattern)
    requires i <= |s| && RunLength(s, i, k) == n > 0
    ensures MatchAt(s, i, Then(Skip(k), rest)) == MatchAt(s, i + n, rest)
  {
  }

  lemma MatchGroup(s: string, i: nat, k: CharClass, n: nat, rest: Pattern)
    requires i <= |s| && RunLength(s, i, k) == n > 0 && MatchAt(s, i + n, rest).Some?
    ensures MatchAt(s, i, Then(Group(k), rest)) == Some([s[i..i + n]] + MatchAt(s, i + n, rest).value)
  {
  }

  /** The `for` pattern finds the variable and the collection of a single-spaced header at its start. */
  lemma ForMatchReads(a: string, c: string)
    requires IsWord(a) && IsWord(c)
    ensures Search("for " + a + " in " + c, 0, ForPattern) == Some([a, c])
  {
    ForTextReads(a, c, []);
    assert "for " + a + " in " + c + [] == "for " + a + " in " + c;
  }

  /** The same for a header followed by text that does not continue the collection's word. */
  lemma ForTextReads(a: string, c: string, z: string)
    requires IsWord(a) && IsWord(c) && (z == [] || !IsWordChar(z[0]))
    ensures Search("for " + a + " in " + c + z, 0, ForPattern) == Some([a, c])
  {
    assert RunLength(a + (" in " + (c + z)), 0, Words) == |a| by {
      WordRunAppend(a, " in " + (c + z));
    }
    assert RunLength(c + z, 0, Words) == |c| by {
      WordRunAppend(c, z);
    }
    ForTextMatches(a, c, z);
  }

  /** The `for` pattern on a header whose two words are known by the runs they start. */
  lemma ForTextMatches(a: string, c: string, z: string)
    requires |a| > 0 && |c| > 0
    requires RunLength(a + (" in " + (c + z)), 0, Words) == |a| && RunLength(c + z, 0, Words) == |c|
    ensures Search("for " + a + " in " + c + z, 0, ForPattern) == Some([a, c])
  {
    var s := "for " + a + " in " + c + z;
    ForTextLayout(a, c, z);
    ForRunsMatch(s, |a|, |c|);
    SearchAtMatch(s, 0, ForPattern);
  }

  /** Where the parts of `for a in c` followed by `z` sit, and the runs that start at the two words. */
  lemma ForTextLayout(a: string, c: string, z: string)
    ensures var s := "for " + a + " in " + c + z; |s| == 8 + |a| + |c| + |z|
    ensures var s := "for " + a + " in " + c + z;
      s[0..3] == "for" && s[3] == ' ' && s[4..4 + |a|] == a
    ensures var s := "for " + a + " in " + c + z; var n := |a|;
      s[4 + n] == ' ' && s[5 + n] == 'i' && s[6 + n] == 'n' && s[7 + n] == ' ' && s[8 + n..8 + n + |c|] == c
    ensures var s := "for " + a + " in " + c + z;
      RunLength(s, 4, Words) == RunLength(a + (" in " + (c + z)), 0, Words)
    ensures var s := "for " + a + " in " + c + z;
      RunLength(s, 8 + |a|, Words) == RunLength(c + z, 0, Words)
  {
    ForTextHead(a, c, z);
    ForTextIn(a, c, z);
    ForTextRuns(a, c, z);
  }

  lemma ForTextAssoc(a: string, c: string, z: string)
    ensures "for " + a + " in " + c + z == "for " + (a + (" in " + (c + z)))
    ensures "for " + a + " in " + c + z == ("for " + a + " in ") + (c + z)
  {
    var q := " in " + (c + z);
    ConcatAssoc("for ", a, q);
    ConcatAssoc("for " + a, " in ", c + z);
    ConcatAssoc("for " + a + " in ", c, z);
  }

  lemma ForTextHead(a: string, c: string, z: string)
    ensures var s := "for " + a + " in " + c + z; |s| == 8 + |a| + |c| + |z|
    ensures var s := "for " + a + " in " + c + z;
      s[0..3] == "for" && s[3] == ' ' && s[4..4 + |a|] == a
  {
    var s := "for " + a + " in " + c + z;
    ForTextAssoc(a, c, z);
    assert s[..4] == "for " && s[4..] == a + (" in " + (c + z));
  }

  lemma ForTextIn(a: string, c: string, z: string)
    ensures var s := "for " + a + " in " + c + z; var n := |a|;
      s[4 + n] == ' ' && s[5 + n] == 'i' && s[6 + n] == 'n' && s[7 + n] == ' ' && s[8 + n..8 + n + |c|] == c
  {
    var s := "for " + a + " in " + c + z;
    var p := "for " + a + " in ";
    ForTextAssoc(a, c, z);
    assert s[..8 + |a|] == p && s[8 + |a|..] == c + z;
    assert p[4 + |a|..] == " in ";
  }

  lemma ForTextRuns(a: string, c: string, z: string)
    ensures var s := "for " + a + " in " + c + z;
      RunLength(s, 4, Words) == RunLength(a + (" in " + (c + z)), 0, Words)
    ensures var s := "for " + a + " in " + c + z;
      RunLength(s, 8 + |a|, Words) == RunLength(c + z, 0, Words)
  {
    ForTextAssoc(a, c, z);
    RunLengthAppend("for ", a + (" in " + (c + z)), 0, Words);
    RunLengthAppend("for " + a + " in ", c + z, 0, Words);
  }

  /** A search that matches where it starts stops there. */
  lemma SearchAtMatch(s: string, i: nat, pat: Pattern)
    requires i <= |s| && MatchAt(s, i, pat).Some?
    ensures Search(s, i, pat) == MatchAt(s, i, pat)
  {
  }

  /** `for`, a run of `n` word characters, ` in `, and a run of `m`: the pattern captures the two runs. */
  lemma ForRunsMatch(s: string, n: nat, m: nat)
    requires 8 + n + m <= |s| && n > 0 && m > 0
    requires s[0..3] == "for" && s[3] == ' ' && s[4 + n] == ' ' && s[5 + n] == 'i' && s[6 + n] == 'n' && s[7 + n] == ' '
    requires RunLength(s, 4, Words) == n && RunLength(s, 8 + n, Words) == m
    ensures MatchAt(s, 0, ForPattern) == Some([s[4..4 + n], s[8 + n..8 + n + m]])
  {
    ForRunsTail(s, n, m);
    ForRunsHead(s, n, s[8 + n..8 + n + m], ForPattern.rest.rest.rest);
  }

  /** After the first run: ` in ` and the second run, captured. */
  lemma ForRunsTail(s: string, n: nat, m: nat)
    requires 8 + n + m <= |s| && m > 0
    requires s[4 + n] == ' ' && s[5 + n] == 'i' && s[6 + n] == 'n' && s[7 + n] == ' '
    requires RunLength(s, 8 + n, Words) == m
    ensures MatchAt(s, 4 + n, Then(Skip(Spaces), Then(Literal("in"), Then(Skip(Spaces), Then(Group(Words), End)))))
      == Some([s[8 + n..8 + n + m]])
  {
    LastRunMatch(s, 8 + n, m);
    SpacedInReads(s, 4 + n, Then(Group(Words), End));
  }

  /** A run of word characters that the pattern ends with is captured whole. */
  lemma LastRunMatch(s: string, i: nat, m: nat)
    requires i <= |s| && RunLength(s, i, Words) == m > 0
    ensures i < |s| && !IsSpace(s[i])
    ensures MatchAt(s, i, Then(Group(Words), End)) == Some([s[i..i + m]])
  {
    MatchGroup(s, i, Words, m, End);
    assert [s[i..i + m]] + [] == [s[i..i + m]];
  }

  /** `for `, then a run of `n` word characters captured before whatever `tail` captures. */
  lemma ForRunsHead(s: string, n: nat, c: string, tail: Pattern)
    requires 4 + n <= |s| && n > 0
    requires s[0..3] == "for" && s[3] == ' ' && RunLength(s, 4, Words) == n
    requires MatchAt(s, 4 + n, tail) == Some([c])
    ensures MatchAt(s, 0, Then(Literal("for"), Then(Skip(Spaces), Then(Group(Words), tail)))) == Some([s[4..4 + n], c])
  {
    RunThenCapture(s, 4, n, c, tail);
    RunLengthOf(s, 3, Spaces, 1);
    MatchSkip(s, 3, Spaces, 1, Then(Group(Words), tail));
    MatchLiteral(s, 0, "for", Then(Skip(Spaces), Then(Group(Words), tail)));
  }

  /** A run of `n` word characters, captured before the one capture of `tail`. */
  lemma RunThenCapture(s: string, i: nat, n: nat, c: string, tail: Pattern)
    requires i + n <= |s| && n > 0 && RunLength(s, i, Words) == n
    requires MatchAt(s, i + n, tail) == Some([c])
    ensures MatchAt(s, i, Then(Group(Words), tail)) == Some([s[i..i + n], c])
  {
    MatchGroup(s, i, Words, n, tail);
    assert [s[i..i + n]] + [c] == [s[i..i + n], c];
  }

  /** ` in ` followed by a non-space is read by `\s+in\s+`, each run of spaces being one long. */
  lemma SpacedInReads(s: string, i: nat, rest: Pattern)
    requires i + 4 < |s| && s[i] == ' ' && s[i + 1] == 'i' && s[i + 2] == 'n' && s[i + 3] == ' ' && !IsSpace(s[i + 4])
    ensures MatchAt(s, i, Then(Skip(Spaces), Then(Literal("in"), Then(Skip(Spaces), rest)))) == MatchAt(s, i + 4, rest)
  {
    RunLengthOf(s, i, Spaces, 1);
    RunLengthOf(s, i + 3, Spaces, 1);
    MatchSkip(s, i + 3, Spaces, 1, rest);
    MatchIn(s, i + 1, Then(Skip(Spaces), rest));
    MatchSkip(s, i, Spaces, 1, Then(Literal("in"), Then(Skip(Spaces), rest)));
  }

  /** A `{{% for a in c %}}` tag, written with single spaces, reads back its variable and collection. */
  lemma ForTagReads(a: string, c: string)
    requires IsWord(a) && IsWord(c)
    ensures Classify("% for " + a + " in " + c + " %") == ForDirective(a, c)
  {
    var cc := "for " + a + " in " + c + " %";
    ForTagLayout(a, c);
    ControlContent(cc);
    ForKeyword(cc);
    ForTextReads(a, c, " %");
    ForTagString(a, c);
    ClassifyFor("% " + cc, cc, a, c);
  }

  lemma ForTagString(a: string, c: string)
    ensures "% " + ("for " + a + " in " + c + " %") == "% for " + a + " in " + c + " %"
  {
  }

  /** Where the parts of a single-spaced `for` tag's text sit. */
  lemma ForTagLayout(a: string, c: string)
    requires IsWord(a) && IsWord(c)
    ensures var s := "for " + a + " in " + c + " %";
      var n := |a|;
      |s| == 10 + n + |c| && s[8 + n + |c|] == ' ' &&
      s[0..3] == "for" && s[3] == ' ' && s[4 + n] == ' ' &&
      s[5 + n..7 + n] == "in" && s[7 + n] == ' ' &&
      s[4..4 + n] == a && s[8 + n..8 + n + |c|] == c && IsTrimmed(s)
  {
    var h := "for " + a + " in " + c;
    var s := h + " %";
    ForHeaderLayout(a, c);
    assert s[..|h|] == h && s[|h|..] == " %";
  }

  /**
   An `if` tag on one line reads back its condition: the text after `if `,
   trimmed.
   */
  lemma IfTagReads(content: string)
    requires IsControl(content)
    requires var cc := Trim(content[1..]); StartsWith(cc, "if ") && OneLine(cc)
    ensures var cc := Trim(content[1..]); Classify(content) == IfDirective(Trim(cc[3..]))
  {
    var cc := Trim(content[1..]);
    var n := IfMatchReads(cc);
    IfIsNotFor(cc);
    TrimmedIsFixpoint(cc[2 + n..]);
    ClassifyIf(content, cc, cc[2 + n..]);
  }

  lemma IfIsNotFor(cc: string)
    requires StartsWith(cc, "if ")
    ensures !StartsWith(cc, "for ")
  {
    assert cc[..3][0] == 'i';
  }

  lemma ClassifyIf(content: string, cc: string, x: string)
    requires IsControl(content) && Trim(content[1..]) == cc
    requires !StartsWith(cc, "for ") && StartsWith(cc, "if ") && Search(cc, 0, IfPattern) == Some([x])
    ensures Classify(content) == IfDirective(Trim(x))
  {
  }

  /** The `if` pattern captures a trimmed one-line `if ` text from its first character after the spaces. */
  lemma IfMatchReads(cc: string) returns (n: nat)
    requires IsTrimmed(cc) && StartsWith(cc, "if ") && OneLine(cc)
    ensures 3 <= 2 + n < |cc| && IsTrimmed(cc[2 + n..])
    ensures Search(cc, 0, IfPattern) == Some([cc[2 + n..]])
    ensures Trim(cc[3..]) == cc[2 + n..]
  {
    n := IfLayout(cc);
    IfConditionTrim(cc, n);
    var x := cc[2 + n..];
    RunLengthOf(cc, 2 + n, NotLineTerminators, |x|);
    assert MatchAt(cc, |cc|, End) == Some([]) && cc[2 + n..2 + n + |x|] == x;
    MatchGroup(cc, 2 + n, NotLineTerminators, |x|, End);
    assert [x] + [] == [x];
    MatchSkip(cc, 2, Spaces, n, Then(Group(NotLineTerminators), End));
    MatchLiteral(cc, 0, "if", Then(Skip(Spaces), Then(Group(NotLineTerminators), End)));
    assert MatchAt(cc, 0, IfPattern) == Some([x]);
  }

  /** Where the spaces after `if` end in a trimmed `if ` text. */
  lemma IfLayout(cc: string) returns (n: nat)
    requires IsTrimmed(cc) && StartsWith(cc, "if ")
    ensures n == RunLength(cc, 2, Spaces) && 1 <= n && 2 + n < |cc|
    ensures cc[0..2] == "if" && IsTrimmed(cc[2 + n..])
    ensures forall i :: 2 <= i < 2 + n ==> IsSpace(cc[i])
  {
    assert cc[2] == cc[..3][2] == ' ';
    assert cc[0..2] == cc[..3][..2] == "if";
    n := RunLength(cc, 2, Spaces);
    RunLengthIsMaximal(cc, 2, Spaces);
    assert InClass(cc[2], Spaces);
    var x := cc[2 + n..];
    assert x[0] == cc[2 + n] && x[|x| - 1] == cc[|cc| - 1];
  }

  /** Trimming the text after `if ` drops the spaces `IfLayout` measured, and nothing else. */
  lemma IfConditionTrim(cc: string, n: nat)
    requires 3 <= 2 + n < |cc| && IsTrimmed(cc[2 + n..])
    requires forall i :: 2 <= i < 2 + n ==> IsSpace(cc[i])
    ensures Trim(cc[3..]) == cc[2 + n..]
  {
    var y := cc[3..];
    assert y[n - 1..] == cc[2 + n..];
    forall i | 0 <= i < n - 1 ensures IsSpace(y[i]) { assert y[i] == cc[3 + i]; }
    TrimAfterSpaces(y, n - 1);
  }
}
