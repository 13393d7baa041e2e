/**
 The three passes of `render`, as functions of their input text.

 Pass 1 replaces, for each name of the variable set in insertion order, every
 `{{name}}` written without inner white space by the text of the value the
 name reaches in the data.  Pass 2 rewrites every `{% for a in c %}…{% endfor %}`
 block into one copy of its body per element of the collection `c`, with
 `{{a.p}}` read from the element.  Pass 3 keeps the body of every
 `{% if e %}…{% endif %}` block whose condition holds and drops the others.

 Each pass is a global regular-expression replace: the text is read from the
 left; where a match starts, it is replaced and the scan resumes after it;
 elsewhere one character is copied.  The matchers below take the runs the
 expressions take: `\w+` and `\w+(?:\.\w+)*` must be followed by a character
 that cannot extend them, so only their longest run can succeed; the lazy
 `(.*?)` and `(.+?)` stop at the first closing marker that lets the rest match.
 */
module Renderer {
  import opened Wrappers
  import opened Strings
  import opened Values
  import opened Conditions

  // ---------------------------------------------------------------------------
  // Pass 1: the names of the variable set

  /** `{{name}}`, the text pass 1 replaces for `name`. */
  function Placeholder(name: string): (r: string)
    ensures |r| == |name| + 4 && r[..2] == "{{" && r[2..|name| + 2] == name && r[|name| + 2..] == "}}"
  {
    "{{" + name + "}}"
  }

  /**
   Pass 1 after the names `vars` have been handled in order: each one's
   placeholder is replaced everywhere in the text the earlier ones left.
   */
  function SubstituteVariables(t: string, vars: seq<string>, data: Value): string
  {
    if vars == [] then t
    else
      var v := vars[|vars| - 1];
      ReplaceAll(SubstituteVariables(t, vars[..|vars| - 1], data), Placeholder(v), ValueText(Lookup(data, v)))
  }

  // ---------------------------------------------------------------------------
  // Pass 2: loop blocks

  const ForOpen: string := "{% for "
  const InWord: string := " in "
  const TagEnd: string := " %}"
  const EndFor: string := "{% endfor %}"

  /** A matched loop block: its alias, its collection path, its body and its length in the text. */
  datatype LoopBlock = LoopBlock(alias: string, collection: string, body: string, size: nat)

  /**
   `{% for (\w+) in (\w+) %}(.*?){% endfor %}` at the start of `s`: the body
   runs to the first `{% endfor %}` after the header.
   */
  function MatchLoopAt(s: string): (r: Option<LoopBlock>)
    ensures r.Some? ==> 0 < r.value.size <= |s|
  {
    if !StartsWith(s, ForOpen) then None else MatchLoopAlias(s, RunLength(s, 7, Words))
  }

  /** The rest of the loop match once the alias run after `{% for ` is known to have length `n`. */
  function MatchLoopAlias(s: string, n: nat): (r: Option<LoopBlock>)
    requires 7 + n <= |s|
    ensures r.Some? ==> 0 < r.value.size <= |s|
  {
    if n == 0 || !OccursAt(s, InWord, 7 + n) then None
    else MatchLoopCollection(s, n, RunLength(s, 11 + n, Words))
  }

  /** The rest of the loop match once the collection run after ` in ` is known to have length `m`. */
  function MatchLoopCollection(s: string, n: nat, m: nat): (r: Option<LoopBlock>)
    requires 11 + n + m <= |s|
    ensures r.Some? ==> 0 < r.value.size <= |s|
  {
    if m == 0 || !OccursAt(s, TagEnd, 11 + n + m) then None
    else
      var e := IndexOf(s, EndFor, 14 + n + m);
      if e < 0 then None
      else Some(LoopBlock(s[7..7 + n], s[11 + n..11 + n + m], s[14 + n + m..e], e + 12))
  }

  /** The elements `for … of` visits in a string: its characters, each a one-character string. */
  function Chars(s: string): (r: seq<Value>)
    ensures |r| == |s| && forall i :: 0 <= i < |s| ==> r[i] == Str([s[i]])
  {
    seq(|s|, i requires 0 <= i < |s| => Str([s[i]]))
  }

  /**
   The elements the loop visits for the collection value `v || []`:
   nothing for `undefined`, the elements of an array, the characters of a
   string; an object is not iterable and the loop throws (`None`).
   */
  function LoopItems(v: Option<Value>): (r: Option<seq<Value>>)
    ensures r.None? <==> v.Some? && v.value.Obj?
  {
    match v
    case None => Some([])
    case Some(Arr(xs)) => Some(xs)
    case Some(Str(s)) => Some(Chars(s))
    case Some(Obj(_)) => None
  }

  /** `{{(\w+(?:\.\w+)*)}}` at the start of `s`: the dotted path between the braces. */
  function FieldAt(s: string): (r: Option<string>)
    ensures r.Some? ==> |r.value| + 4 <= |s|
  {
    if !StartsWith(s, "{{") then None
    else
      var n := DottedRun(s, 2);
      if n > 0 && OccursAt(s, "}}", 2 + n) then Some(s[2..2 + n]) else None
  }

  /** What the field matcher accepts is `{{`, a dotted path and `}}`. */
  lemma FieldAtSound(s: string)
    requires FieldAt(s).Some?
    ensures var p := FieldAt(s).value; IsDottedPath(p) && s[..|p| + 4] == Placeholder(p)
  {
    var n := DottedRun(s, 2);
    DottedRunIsMaximal(s, 2);
    var p := s[2..2 + n];
    SliceSplit(s, 0, 2, 2 + n);
    SliceSplit(s, 0, 2 + n, 4 + n);
    assert s[0..2] == s[..2] == "{{";
  }

  /**
   The text a placeholder of the loop body becomes for one element: a path
   `alias.p` reads the property `p` of the element, any other path is looked
   up in the data; `undefined` becomes the empty text.
   */
  function FieldText(path: string, alias: string, item: Value, data: Value): string
  {
    if StartsWith(path, alias + ".") then ValueText(Member(Some(item), path[|alias| + 1..]))
    else ValueText(Lookup(data, path))
  }

  /** The loop body `s` with its placeholders replaced for the element `item`. */
  function ItemText(s: string, alias: string, item: Value, data: Value): string
    decreases |s|
  {
    if s == [] then []
    else
      match FieldAt(s)
      case Some(p) => FieldText(p, alias, item, data) + ItemText(s[|p| + 4..], alias, item, data)
      case None => [s[0]] + ItemText(s[1..], alias, item, data)
  }

  /** The texts `f` gives the elements of `items`, one after the other in element order. */
  function ConcatMap(items: seq<Value>, f: Value -> string): string
  {
    if items == [] then [] else ConcatMap(items[..|items| - 1], f) + f(items[|items| - 1])
  }

  /** The copies of the body for `items`, each with its placeholders replaced for its element. */
  function ItemsText(body: string, alias: string, items: seq<Value>, data: Value): string
  {
    ConcatMap(items, item => ItemText(body, alias, item, data))
  }

  /** What a loop block is replaced by, or `None` when its collection is not iterable. */
  function LoopOutput(b: LoopBlock, data: Value): Option<string>
  {
    match LoopItems(Lookup(data, b.collection))
    case None => None
    case Some(items) => Some(ItemsText(b.body, b.alias, items, data))
  }

  /** `x` in front of a result that may have failed. */
  function Prepend(x: string, r: Option<string>): (q: Option<string>)
    ensures q.Some? <==> r.Some?
    ensures q.Some? ==> q.value == x + r.value
  {
    match r
    case None => None
    case Some(y) => Some(x + y)
  }

  /** Pass 2 over `s`; it fails when one of its blocks names an object as collection. */
  function ExpandLoops(s: string, data: Value): Option<string>
    decreases |s|
  {
    if s == [] then Some([])
    else
      match MatchLoopAt(s)
      case Some(b) =>
        (match LoopOutput(b, data)
         case None => None
         case Some(o) => Prepend(o, ExpandLoops(s[b.size..], data)))
      case None => Prepend([s[0]], ExpandLoops(s[1..], data))
  }

  // ---------------------------------------------------------------------------
  // Pass 3: conditional blocks

  const IfOpen: string := "{% if "
  const EndIf: string := "{% endif %}"

  /** A matched conditional block: its condition text, its body and its length in the text. */
  datatype IfBlock = IfBlock(condition: string, body: string, size: nat)

  /**
   `{% if (.+?) %}(.*?){% endif %}` at the start of `s`: the condition runs
   to the first ` %}` after at least one character, the body to the first
   `{% endif %}` after that.  Were there no `{% endif %}` after the first
   ` %}`, there would be none after a later one either, so the lazy
   condition never needs to grow past it.
   */
  function MatchIfAt(s: string): (r: Option<IfBlock>)
    ensures r.Some? ==> 0 < r.value.size <= |s| && r.value.condition != []
  {
    if !StartsWith(s, IfOpen) then None else MatchIfCondition(s, IndexOf(s, TagEnd, 7))
  }

  /** The rest of the conditional match once the first ` %}` after the condition's first character is at `p`. */
  function MatchIfCondition(s: string, p: int): (r: Option<IfBlock>)
    requires p == -1 || (7 <= p && p + 3 <= |s|)
    ensures r.Some? ==> 0 < r.value.size <= |s| && r.value.condition != []
  {
    if p < 0 then None
    else
      var q := IndexOf(s, EndIf, p + 3);
      if q < 0 then None
      else Some(IfBlock(s[6..p], s[p + 3..q], q + 11))
  }

  /** Pass 3 over `s`: a block whose condition holds leaves its body, any other block nothing. */
  function ExpandConditionals(s: string, data: Value): string
    decreases |s|
  {
    if s == [] then []
    else
      match MatchIfAt(s)
      case Some(b) =>
        (if EvaluateCondition(b.condition, data) then b.body else []) + ExpandConditionals(s[b.size..], data)
      case None => [s[0]] + ExpandConditionals(s[1..], data)
  }

  // ---------------------------------------------------------------------------
  // The whole of `render`

  /** `render(t, data)` with the variable set `vars` of the last parse; `None` when it throws. */
  function Render(t: string, vars: seq<string>, data: Value): Option<string>
  {
    match ExpandLoops(SubstituteVariables(t, vars, data), data)
    case None => None
    case Some(o) => Some(ExpandConditionals(o, data))
  }

  // ---------------------------------------------------------------------------
  // Properties of pass 1

  /** A text without `{{` holds no placeholder of any name. */
  lemma FreeOfPlaceholder(t: string, v: string)
    requires Free(t, "{{")
    ensures Free(t, Placeholder(v))
  {
    var pat := Placeholder(v);
    forall j | 0 <= j < |t|
      ensures !OccursAt(t, pat, j)
    {
      if OccursAt(t, pat, j) {
        assert t[j..j + 2] == t[j..j + |pat|][..2] == "{{";
        assert OccursAt(t, "{{", j);
      }
    }
  }

  /** Pass 1 leaves a text without `{{` unchanged, whatever the names and the data. */
  lemma {:induction false} SubstituteWithoutPlaceholders(t: string, vars: seq<string>, data: Value)
    requires Free(t, "{{")
    ensures SubstituteVariables(t, vars, data) == t
    decreases |vars|
  {
    if vars != [] {
      var v := vars[|vars| - 1];
      SubstituteWithoutPlaceholders(t, vars[..|vars| - 1], data);
      FreeOfPlaceholder(t, v);
      ReplaceAllWithoutOccurrence(t, Placeholder(v), ValueText(Lookup(data, v)));
    }
  }

  /**
   For one name, pass 1 cuts the text at every `{{name}}` and joins the
   pieces with the value's text: each occurrence is replaced, everything
   else kept in order.
   */
  lemma SubstituteOneName(t: string, v: string, data: Value)
    ensures SubstituteVariables(t, [v], data) == JoinWith(SplitOn(t, Placeholder(v)), ValueText(Lookup(data, v)))
  {
    assert [v][..0] == [];
    ReplaceAllIsJoin(t, Placeholder(v), ValueText(Lookup(data, v)));
  }

  /** A placeholder written with inner white space, or any other text without `{{name}}`, is left as it is. */
  lemma SubstituteAbsentName(t: string, v: string, data: Value)
    requires Free(t, Placeholder(v))
    ensures SubstituteVariables(t, [v], data) == t
  {
    assert [v][..0] == [];
    ReplaceAllWithoutOccurrence(t, Placeholder(v), ValueText(Lookup(data, v)));
  }

  // ---------------------------------------------------------------------------
  // Properties of passes 2 and 3 on text without blocks

  /** A text that does not start with `{%` starts no loop block. */
  lemma NoLoopWithoutMarker(s: string)
    requires !OccursAt(s, "{%", 0)
    ensures MatchLoopAt(s).None?
  {
  }

  /** A text that does not start with `{%` starts no conditional block. */
  lemma NoConditionalWithoutMarker(s: string)
    requires !OccursAt(s, "{%", 0)
    ensures MatchIfAt(s).None?
  {
  }

  /** Pass 2 leaves a text without `{%` unchanged. */
  lemma {:induction false} LoopsWithoutBlocks(s: string, data: Value)
    requires Free(s, "{%")
    ensures ExpandLoops(s, data) == Some(s)
    decreases |s|
  {
    if s != [] {
      NoLoopWithoutMarker(s);
      FreeSlice(s, "{%", 1, |s|);
      assert s[1..|s|] == s[1..];
      LoopsWithoutBlocks(s[1..], data);
      assert [s[0]] + s[1..] == s;
    }
  }

  /** Pass 3 leaves a text without `{%` unchanged. */
  lemma {:induction false} ConditionalsWithoutBlocks(s: string, data: Value)
    requires Free(s, "{%")
    ensures ExpandConditionals(s, data) == s
    decreases |s|
  {
    if s != [] {
      NoConditionalWithoutMarker(s);
      FreeSlice(s, "{%", 1, |s|);
      assert s[1..|s|] == s[1..];
      ConditionalsWithoutBlocks(s[1..], data);
      assert [s[0]] + s[1..] == s;
    }
  }

  /** A template without `{{` and without `{%` renders as itself. */
  lemma RenderPlainText(t: string, vars: seq<string>, data: Value)
    requires Free(t, "{{") && Free(t, "{%")
    ensures Render(t, vars, data) == Some(t)
  {
    SubstituteWithoutPlaceholders(t, vars, data);
    LoopsWithoutBlocks(t, data);
    ConditionalsWithoutBlocks(t, data);
  }

  // ---------------------------------------------------------------------------
  // Properties of the loop body

  /** A body without `{{` is copied unchanged for each element. */
  lemma {:induction false} ItemTextWithoutFields(s: string, alias: string, item: Value, data: Value)
    requires Free(s, "{{")
    ensures ItemText(s, alias, item, data) == s
    decreases |s|
  {
    if s != [] {
      assert FieldAt(s).None? by {
        if StartsWith(s, "{{") {
          assert OccursAt(s, "{{", 0);
        }
      }
      FreeSlice(s, "{{", 1, |s|);
      assert s[1..|s|] == s[1..];
      ItemTextWithoutFields(s[1..], alias, item, data);
      assert [s[0]] + s[1..] == s;
    }
  }

  /** When `f` gives every element the same text, the texts of `N` elements are `N` copies of it. */
  lemma {:induction false} ConcatMapConstant(items: seq<Value>, f: Value -> string, c: string)
    requires forall x :: f(x) == c
    ensures ConcatMap(items, f) == Repeat(c, |items|)
    decreases |items|
  {
    if items != [] {
      ConcatMapConstant(items[..|items| - 1], f, c);
    }
  }

  /** The texts of two runs of elements are the texts of each run, in order. */
  lemma {:induction false} ConcatMapAppend(xs: seq<Value>, ys: seq<Value>, f: Value -> string)
    ensures ConcatMap(xs + ys, f) == ConcatMap(xs, f) + ConcatMap(ys, f)
    decreases |ys|
  {
    if ys == [] {
      assert xs + ys == xs;
    } else {
      var init := ys[..|ys| - 1];
      assert (xs + ys)[..|xs + ys| - 1] == xs + init;
      assert (xs + ys)[|xs + ys| - 1] == ys[|ys| - 1];
      ConcatMapAppend(xs, init, f);
    }
  }

  /** A loop over `N` elements whose body holds no placeholder is `N` copies of the body. */
  lemma ItemsTextRepeat(body: string, alias: string, items: seq<Value>, data: Value)
    requires Free(body, "{{")
    ensures ItemsText(body, alias, items, data) == Repeat(body, |items|)
  {
    forall item: Value
      ensures ItemText(body, alias, item, data) == body
    {
      ItemTextWithoutFields(body, alias, item, data);
    }
    ConcatMapConstant(items, item => ItemText(body, alias, item, data), body);
  }

  /** The copies for two runs of elements are the copies for each run, in order. */
  lemma ItemsTextAppend(body: string, alias: string, xs: seq<Value>, ys: seq<Value>, data: Value)
    ensures ItemsText(body, alias, xs + ys, data) == ItemsText(body, alias, xs, data) + ItemsText(body, alias, ys, data)
  {
    ConcatMapAppend(xs, ys, item => ItemText(body, alias, item, data));
  }

  /** `{{path}}` followed by `rest` starts with a field whose path is `path`. */
  lemma FieldAtLayout(s: string, path: string)
    requires IsDottedPath(path) && |path| + 4 <= |s|
    requires s[..2] == "{{" && s[2..2 + |path|] == path && s[2 + |path|] == '}' && s[3 + |path|] == '}'
    ensures FieldAt(s) == Some(path)
  {
    DottedRunOfPath(s, 2, path);
    assert s[2 + |path|..4 + |path|] == "}}";
  }

  /** Where the parts of `{{path}}` + `rest` sit. */
  lemma PlaceholderLayout(path: string, rest: string)
    ensures var s := Placeholder(path) + rest;
      |path| + 4 <= |s| && s[..2] == "{{" && s[2..2 + |path|] == path &&
      s[2 + |path|] == '}' && s[3 + |path|] == '}' && s[|path| + 4..] == rest
  {
    var x := "{{" + path;
    assert Placeholder(path) + rest == x + ("}}" + rest);
    assert x[..2] == "{{" && x[2..] == path;
  }

  /** In a loop body, `{{path}}` becomes the text of that path for the element, and the scan goes on after it. */
  lemma ItemTextAtPlaceholder(path: string, rest: string, alias: string, item: Value, data: Value)
    requires IsDottedPath(path)
    ensures ItemText(Placeholder(path) + rest, alias, item, data) ==
      FieldText(path, alias, item, data) + ItemText(rest, alias, item, data)
  {
    var s := Placeholder(path) + rest;
    PlaceholderLayout(path, rest);
    FieldAtLayout(s, path);
  }

  /** `{{alias.p}}` reads the property `p` of the element. */
  lemma AliasField(alias: string, p: string, item: Value, data: Value)
    requires IsWord(alias) && IsDottedPath(p)
    ensures ItemText(Placeholder(alias + "." + p), alias, item, data) == ValueText(Member(Some(item), p))
  {
    var path := alias + "." + p;
    assert IsDottedPath(path) by {
      assert forall i :: 0 <= i < |alias| ==> path[i] == alias[i];
      assert path[|alias|] == '.';
      assert forall i :: 0 <= i < |p| ==> path[|alias| + 1 + i] == p[i];
      assert forall i :: 0 <= i < |path| - 1 ==> !DoubleDot(path, i) by {
        forall i | 0 <= i < |path| - 1
          ensures !DoubleDot(path, i)
        {
          if i > |alias| {
            assert !DoubleDot(p, i - |alias| - 1);
          }
        }
      }
    }
    assert path[..|alias| + 1] == alias + ".";
    assert path[|alias| + 1..] == p;
    ItemTextAtPlaceholder(path, [], alias, item, data);
    assert Placeholder(path) + [] == Placeholder(path);
  }

  /** Any other `{{path}}` in a loop body is looked up in the data. */
  lemma OtherField(path: string, alias: string, item: Value, data: Value)
    requires IsDottedPath(path) && !StartsWith(path, alias + ".")
    ensures ItemText(Placeholder(path), alias, item, data) == ValueText(Lookup(data, path))
  {
    ItemTextAtPlaceholder(path, [], alias, item, data);
    assert Placeholder(path) + [] == Placeholder(path);
  }

  // ---------------------------------------------------------------------------
  // Loop blocks written out

  /** `{% for a in c %}`, a loop header written with single spaces. */
  function LoopHeader(a: string, c: string): (r: string)
    ensures |r| == |a| + |c| + 14
  {
    ForOpen + a + InWord + c + TagEnd
  }

  /** A whole loop block: its header, its body and `{% endfor %}`. */
  function LoopText(a: string, c: string, body: string): (r: string)
    ensures |r| == |a| + |c| + |body| + 26
  {
    LoopHeader(a, c) + body + EndFor
  }

  /** Where the parts of a loop header followed by `u` sit. */
  lemma LoopHeaderLayout(a: string, c: string, u: string)
    ensures var s := LoopHeader(a, c) + u; var n, m := |a|, |c|;
      s[..7] == ForOpen && s[7..7 + n] == a && s[7 + n..11 + n] == InWord &&
      s[11 + n..11 + n + m] == c && s[11 + n + m..14 + n + m] == TagEnd && s[14 + n + m..] == u
  {
    var x1 := ForOpen + a;
    var x2 := x1 + InWord;
    var x3 := x2 + c;
    var h := x3 + TagEnd;
    var s := h + u;
    assert LoopHeader(a, c) == h;
    assert s[..|h|] == h && s[|h|..] == u;
    assert h[..|x3|] == x3 && h[|x3|..] == TagEnd;
    assert x3[..|x2|] == x2 && x3[|x2|..] == c;
    assert x2[..|x1|] == x1 && x2[|x1|..] == InWord;
    assert x1[..7] == ForOpen && x1[7..] == a;
  }

  /** A word written at `i` and followed by the text `x`, which starts with a space, is the `\w+` run there. */
  lemma WordBeforeSpace(s: string, i: nat, w: string, x: string)
    requires IsWord(w) && x != [] && x[0] == ' ' && i + |w| + |x| <= |s|
    requires s[i..i + |w|] == w && s[i + |w|..i + |w| + |x|] == x
    ensures RunLength(s, i, Words) == |w| && OccursAt(s, x, i + |w|)
  {
    assert s[i + |w|] == x[0];
    WordRunOf(s, i, w);
  }

  /** The loop matcher once the runs and markers of the header and the closing marker are known. */
  lemma MatchLoopSpans(s: string, n: nat, m: nat, e: nat)
    requires StartsWith(s, ForOpen) && n > 0 && m > 0 && 14 + n + m <= e && e + 12 <= |s|
    requires RunLength(s, 7, Words) == n && OccursAt(s, InWord, 7 + n)
    requires RunLength(s, 11 + n, Words) == m && OccursAt(s, TagEnd, 11 + n + m)
    requires IndexOf(s, EndFor, 14 + n + m) == e
    ensures MatchLoopAt(s) == Some(LoopBlock(s[7..7 + n], s[11 + n..11 + n + m], s[14 + n + m..e], e + 12))
  {
  }

  /** The first `|x|` characters after a prefix `h`. */
  lemma SliceAfter(h: string, x: string, u: string)
    requires StartsWith(u, x)
    ensures (h + u)[|h|..|h| + |x|] == x
  {
    assert (h + u)[|h|..] == u;
  }

  lemma EndForHeadUnique()
    ensures HeadUnique(EndFor)
  {
  }

  /**
   What the loop matcher accepts is a loop block written out: a `\w+`
   alias and collection in a single-spaced header, and a body that runs to
   the first `{% endfor %}` after the header.
   */
  lemma MatchLoopSound(s: string)
    requires MatchLoopAt(s).Some?
    ensures var b := MatchLoopAt(s).value;
      IsWord(b.alias) && IsWord(b.collection) && s[..b.size] == LoopText(b.alias, b.collection, b.body)
    ensures var b := MatchLoopAt(s).value;
      forall j :: |LoopHeader(b.alias, b.collection)| <= j < b.size - 12 ==> !OccursAt(s, EndFor, j)
  {
    var n, m, e := LoopMatchSpans(s);
    WordRunIsWord(s, 7, n);
    WordRunIsWord(s, 11 + n, m);
    assert IsWord(s[7..7 + n]) && IsWord(s[11 + n..11 + n + m]);
    LoopMatchRead(MatchLoopAt(s), s, n, m, e);
  }

  /** Where a loop match found its alias run, its collection run and its `{% endfor %}`. */
  lemma LoopMatchSpans(s: string) returns (n: nat, m: nat, e: nat)
    requires MatchLoopAt(s).Some?
    ensures 7 <= |s| && n == RunLength(s, 7, Words) && 11 + n <= |s| && m == RunLength(s, 11 + n, Words)
    ensures n > 0 && m > 0
    ensures 14 + n + m <= e && e + 12 <= |s| && s[..7] == ForOpen
    ensures OccursAt(s, InWord, 7 + n) && OccursAt(s, TagEnd, 11 + n + m) && OccursAt(s, EndFor, e)
    ensures forall j :: 14 + n + m <= j < e ==> !OccursAt(s, EndFor, j)
    ensures MatchLoopAt(s) == Some(LoopBlock(s[7..7 + n], s[11 + n..11 + n + m], s[14 + n + m..e], e + 12))
  {
    n := RunLength(s, 7, Words);
    assert StartsWith(s, ForOpen) && MatchLoopAt(s) == MatchLoopAlias(s, n);
    m := RunLength(s, 11 + n, Words);
    assert MatchLoopAlias(s, n) == MatchLoopCollection(s, n, m);
    e := LoopCollectionSpans(s, n, m);
  }

  /** Where a loop match whose alias run has length `n` found its collection run and its `{% endfor %}`. */
  lemma LoopCollectionSpans(s: string, n: nat, m: nat) returns (e: nat)
    requires 11 + n + m <= |s| && MatchLoopCollection(s, n, m).Some?
    ensures m > 0 && 14 + n + m <= e && e + 12 <= |s|
    ensures OccursAt(s, TagEnd, 11 + n + m) && OccursAt(s, EndFor, e)
    ensures forall j :: 14 + n + m <= j < e ==> !OccursAt(s, EndFor, j)
    ensures MatchLoopCollection(s, n, m) == Some(LoopBlock(s[7..7 + n], s[11 + n..11 + n + m], s[14 + n + m..e], e + 12))
  {
    e := IndexOf(s, EndFor, 14 + n + m);
  }

  /** A loop match result read with what is known of the spans it cuts. */
  lemma LoopMatchRead(x: Option<LoopBlock>, s: string, n: nat, m: nat, e: nat)
    requires 14 + n + m <= e && e + 12 <= |s|
    requires x == Some(LoopBlock(s[7..7 + n], s[11 + n..11 + n + m], s[14 + n + m..e], e + 12))
    requires IsWord(s[7..7 + n]) && IsWord(s[11 + n..11 + n + m])
    requires s[..7] == ForOpen && OccursAt(s, InWord, 7 + n) && OccursAt(s, TagEnd, 11 + n + m) && OccursAt(s, EndFor, e)
    requires forall j :: 14 + n + m <= j < e ==> !OccursAt(s, EndFor, j)
    ensures IsWord(x.value.alias) && IsWord(x.value.collection) &&
      s[..x.value.size] == LoopText(x.value.alias, x.value.collection, x.value.body)
    ensures forall j :: |LoopHeader(x.value.alias, x.value.collection)| <= j < x.value.size - 12 ==> !OccursAt(s, EndFor, j)
  {
    LoopSlicesSpell(s, n, m, e);
  }

  /** The seven spans of a matched loop block spell it out. */
  lemma LoopSlicesSpell(s: string, n: nat, m: nat, e: nat)
    requires 14 + n + m <= e && e + 12 <= |s|
    requires s[..7] == ForOpen && OccursAt(s, InWord, 7 + n) && OccursAt(s, TagEnd, 11 + n + m) && OccursAt(s, EndFor, e)
    ensures s[..e + 12] == LoopText(s[7..7 + n], s[11 + n..11 + n + m], s[14 + n + m..e])
  {
    SliceSplit(s, 0, 7, 7 + n);
    SliceSplit(s, 0, 7 + n, 11 + n);
    SliceSplit(s, 0, 11 + n, 11 + n + m);
    SliceSplit(s, 0, 11 + n + m, 14 + n + m);
    SliceSplit(s, 0, 14 + n + m, e);
    SliceSplit(s, 0, e, e + 12);
    assert s[0..7] == s[..7];
  }

  /** `body` + `{% endfor %}` + `rest`, searched from the start, first shows `{% endfor %}` after `body`. */
  lemma EndForAfterBody(h: string, body: string, rest: string)
    requires Free(body, EndFor)
    ensures IndexOf(h + (body + EndFor + rest), EndFor, |h|) == |h| + |body|
  {
    EndForHeadUnique();
    FirstOccurrenceAfter(body, EndFor, rest, 0);
    IndexOfShift(h, body + EndFor + rest, EndFor, 0);
  }

  /**
   A loop block written out is matched whole: the first `{% endfor %}` after
   the header closes it, so its body is read back as written.
   */
  lemma LoopBlockMatches(a: string, c: string, body: string, rest: string)
    requires IsWord(a) && IsWord(c) && Free(body, EndFor)
    ensures MatchLoopAt(LoopText(a, c, body) + rest) == Some(LoopBlock(a, c, body, |LoopText(a, c, body)|))
  {
    var s := LoopText(a, c, body) + rest;
    var n, m := |a|, |c|;
    var e := 14 + n + m + |body|;
    LoopTextRuns(a, c, body, rest);
    MatchLoopSpans(s, n, m, e);
    LoopTextSlices(a, c, body, rest);
    LoopBlockParts(MatchLoopAt(s), s, n, m, e, a, c, body, |LoopText(a, c, body)|);
  }

  /**
   What the conditional matcher accepts is a conditional block written out:
   a non-empty condition that runs to the first ` %}` after its first
   character, and a body that runs to the first `{% endif %}` after that.
   */
  lemma MatchIfSound(s: string)
    requires MatchIfAt(s).Some?
    ensures var b := MatchIfAt(s).value;
      b.condition != [] && s[..b.size] == IfText(b.condition, b.body)
    ensures var b := MatchIfAt(s).value;
      forall j :: 7 <= j < 6 + |b.condition| ==> !OccursAt(s, TagEnd, j)
    ensures var b := MatchIfAt(s).value;
      forall j :: 9 + |b.condition| <= j < b.size - 11 ==> !OccursAt(s, EndIf, j)
  {
    var p := IndexOf(s, TagEnd, 7);
    var q := IndexOf(s, EndIf, p + 3);
    assert MatchIfAt(s) == MatchIfCondition(s, p);
    IfSlicesSpell(s, p, q);
  }

  /** The five spans of a matched conditional block spell it out. */
  lemma IfSlicesSpell(s: string, p: nat, q: nat)
    requires 7 <= p && p + 3 <= q && q + 11 <= |s|
    requires s[..6] == IfOpen && OccursAt(s, TagEnd, p) && OccursAt(s, EndIf, q)
    ensures s[..q + 11] == IfText(s[6..p], s[p + 3..q])
  {
    SliceSplit(s, 0, 6, p);
    SliceSplit(s, 0, p, p + 3);
    SliceSplit(s, 0, p + 3, q);
    SliceSplit(s, 0, q, q + 11);
    assert s[0..6] == s[..6];
  }

  /** A match result read with the spans it cuts known to spell `a`, `c` and `body`. */
  lemma LoopBlockParts(
    x: Option<LoopBlock>, s: string, n: nat, m: nat, e: nat, a: string, c: string, body: string, size: nat)
    requires 14 + n + m <= e <= |s|
    requires x == Some(LoopBlock(s[7..7 + n], s[11 + n..11 + n + m], s[14 + n + m..e], e + 12))
    requires s[7..7 + n] == a && s[11 + n..11 + n + m] == c && s[14 + n + m..e] == body && e + 12 == size
    ensures x == Some(LoopBlock(a, c, body, size))
  {
  }

  /** The runs and markers of a loop block written out, where the matcher looks for them. */
  lemma LoopTextRuns(a: string, c: string, body: string, rest: string)
    requires IsWord(a) && IsWord(c) && Free(body, EndFor)
    ensures var s, n, m := LoopText(a, c, body) + rest, |a|, |c|;
      StartsWith(s, ForOpen) && RunLength(s, 7, Words) == n && OccursAt(s, InWord, 7 + n) &&
      RunLength(s, 11 + n, Words) == m && OccursAt(s, TagEnd, 11 + n + m) &&
      IndexOf(s, EndFor, 14 + n + m) == 14 + n + m + |body|
  {
    var h := LoopHeader(a, c);
    var u := body + EndFor + rest;
    LoopTextSplit(a, c, body, rest);
    LoopHeaderLayout(a, c, u);
    WordBeforeSpace(h + u, 7, a, InWord);
    WordBeforeSpace(h + u, 11 + |a|, c, TagEnd);
    EndForAfterBody(h, body, rest);
  }

  /** The alias, the collection and the body of a loop block written out, where the matcher cuts them. */
  lemma LoopTextSlices(a: string, c: string, body: string, rest: string)
    ensures var s, n, m := LoopText(a, c, body) + rest, |a|, |c|;
      s[7..7 + n] == a && s[11 + n..11 + n + m] == c && s[14 + n + m..14 + n + m + |body|] == body
  {
    var h := LoopHeader(a, c);
    var u := body + EndFor + rest;
    LoopTextSplit(a, c, body, rest);
    LoopHeaderLayout(a, c, u);
    assert u[..|body|] == body;
    SliceAfter(h, body, u);
  }

  lemma LoopTextSplit(a: string, c: string, body: string, rest: string)
    ensures LoopText(a, c, body) + rest == LoopHeader(a, c) + (body + EndFor + rest)
  {
  }

  /**
   Pass 2 replaces a loop block by the copies of its body for the elements of
   its collection and goes on after `{% endfor %}`; a collection that is an
   object makes the whole pass fail.
   */
  lemma LoopBlockExpands(a: string, c: string, body: string, rest: string, data: Value)
    requires IsWord(a) && IsWord(c) && Free(body, EndFor)
    ensures ExpandLoops(LoopText(a, c, body) + rest, data) ==
      match LoopItems(Lookup(data, c))
      case None => None
      case Some(items) => Prepend(ItemsText(body, a, items, data), ExpandLoops(rest, data))
  {
    var s := LoopText(a, c, body) + rest;
    LoopBlockMatches(a, c, body, rest);
    assert s[|LoopText(a, c, body)|..] == rest;
  }

  /** A loop over a collection the data does not hold leaves nothing behind. */
  lemma MissingCollectionLeavesNothing(a: string, c: string, body: string, rest: string, data: Value)
    requires IsWord(a) && IsWord(c) && Free(body, EndFor) && Lookup(data, c).None?
    ensures ExpandLoops(LoopText(a, c, body) + rest, data) == ExpandLoops(rest, data)
  {
    LoopBlockExpands(a, c, body, rest, data);
    match ExpandLoops(rest, data)
    case None =>
    case Some(o) => assert [] + o == o;
  }

  /** A loop over an array gives one copy of the body per element, in element order. */
  lemma ArrayLoopCopies(a: string, c: string, body: string, rest: string, data: Value, xs: seq<Value>)
    requires IsWord(a) && IsWord(c) && Free(body, EndFor) && Lookup(data, c) == Some(Arr(xs))
    ensures ExpandLoops(LoopText(a, c, body) + rest, data) ==
      Prepend(ConcatMap(xs, item => ItemText(body, a, item, data)), ExpandLoops(rest, data))
  {
    LoopBlockExpands(a, c, body, rest, data);
  }

  /**
   A loop over a string visits its characters: a body without placeholders
   is copied once per character.
   */
  lemma StringLoopCopies(a: string, c: string, body: string, rest: string, data: Value, str: string)
    requires IsWord(a) && IsWord(c) && Free(body, EndFor) && Free(body, "{{")
    requires Lookup(data, c) == Some(Str(str))
    ensures ExpandLoops(LoopText(a, c, body) + rest, data) == Prepend(Repeat(body, |str|), ExpandLoops(rest, data))
  {
    LoopBlockExpands(a, c, body, rest, data);
    ItemsTextRepeat(body, a, Chars(str), data);
  }

  // ---------------------------------------------------------------------------
  // Conditional blocks written out

  /** A whole conditional block: `{% if cond %}`, the body and `{% endif %}`. */
  function IfText(cond: string, body: string): (r: string)
    ensures |r| == |cond| + |body| + 20
  {
    IfOpen + cond + TagEnd + body + EndIf
  }

  lemma TagEndHeadUnique()
    ensures HeadUnique(TagEnd)
  {
  }

  lemma EndIfHeadUnique()
    ensures HeadUnique(EndIf)
  {
  }

  /** Where the parts of a conditional block followed by `rest` sit. */
  lemma IfTextLayout(cond: string, body: string, rest: string)
    ensures var u := body + EndIf + rest; var v := cond + TagEnd + u;
      IfText(cond, body) + rest == IfOpen + v && v[..|cond|] == cond && v[|cond| + 3..] == u &&
      u[..|body|] == body
  {
  }

  /** The markers of a conditional block written out, where the matcher finds them. */
  lemma IfTextMarkers(cond: string, body: string, rest: string)
    requires cond != [] && Free(cond, TagEnd) && Free(body, EndIf)
    ensures var s, p := IfText(cond, body) + rest, 6 + |cond|;
      StartsWith(s, IfOpen) && IndexOf(s, TagEnd, 7) == p && IndexOf(s, EndIf, p + 3) == p + 3 + |body|
  {
    var u := body + EndIf + rest;
    IfTextSplit(cond, body, rest);
    TagEndAfterCondition(cond, u);
    EndIfAfterBody(IfOpen + cond + TagEnd, body, rest);
  }

  lemma IfTextSplit(cond: string, body: string, rest: string)
    ensures IfText(cond, body) + rest == IfOpen + (cond + TagEnd + (body + EndIf + rest))
    ensures IfText(cond, body) + rest == (IfOpen + cond + TagEnd) + (body + EndIf + rest)
    ensures StartsWith(IfText(cond, body) + rest, IfOpen)
  {
  }

  /** After `{% if ` and a condition without ` %}`, the first ` %}` is the one that closes the header. */
  lemma TagEndAfterCondition(cond: string, y: string)
    requires cond != [] && Free(cond, TagEnd)
    ensures IndexOf(IfOpen + (cond + TagEnd + y), TagEnd, 7) == 6 + |cond|
  {
    TagEndHeadUnique();
    FirstOccurrenceAfter(cond, TagEnd, y, 1);
    IndexOfShift(IfOpen, cond + TagEnd + y, TagEnd, 1);
  }

  /** `body` + `{% endif %}` + `rest`, searched from its start, first shows `{% endif %}` after `body`. */
  lemma EndIfAfterBody(h: string, body: string, rest: string)
    requires Free(body, EndIf)
    ensures IndexOf(h + (body + EndIf + rest), EndIf, |h|) == |h| + |body|
  {
    EndIfHeadUnique();
    FirstOccurrenceAfter(body, EndIf, rest, 0);
    IndexOfShift(h, body + EndIf + rest, EndIf, 0);
  }

  /** The condition and the body of a conditional block written out, where the matcher cuts them. */
  lemma IfTextSlices(cond: string, body: string, rest: string)
    ensures var s, p := IfText(cond, body) + rest, 6 + |cond|;
      s[6..p] == cond && s[p + 3..p + 3 + |body|] == body
  {
    var u := body + EndIf + rest;
    var v := cond + TagEnd + u;
    IfTextLayout(cond, body, rest);
    assert (IfOpen + v)[6..] == v;
  }

  /** The conditional matcher once its two markers are found. */
  lemma MatchIfSpans(s: string, p: nat, q: nat)
    requires StartsWith(s, IfOpen) && IndexOf(s, TagEnd, 7) == p && IndexOf(s, EndIf, p + 3) == q
    ensures MatchIfAt(s) == Some(IfBlock(s[6..p], s[p + 3..q], q + 11))
  {
  }

  /** A match result read with the spans it cuts known to spell `cond` and `body`. */
  lemma IfBlockParts(x: Option<IfBlock>, s: string, p: nat, q: nat, cond: string, body: string, n: nat)
    requires 6 <= p && p + 3 <= q <= |s|
    requires x == Some(IfBlock(s[6..p], s[p + 3..q], q + 11))
    requires s[6..p] == cond && s[p + 3..q] == body && q + 11 == n
    ensures x == Some(IfBlock(cond, body, n))
  {
  }

  /** The condition of a block written out runs to the first ` %}` after it, the body to the first `{% endif %}`. */
  lemma IfBlockMatches(cond: string, body: string, rest: string)
    requires cond != [] && Free(cond, TagEnd) && Free(body, EndIf)
    ensures MatchIfAt(IfText(cond, body) + rest) == Some(IfBlock(cond, body, |IfText(cond, body)|))
  {
    var s := IfText(cond, body) + rest;
    var p := 6 + |cond|;
    var q := p + 3 + |body|;
    IfTextMarkers(cond, body, rest);
    MatchIfSpans(s, p, q);
    IfTextSlices(cond, body, rest);
    IfBlockParts(MatchIfAt(s), s, p, q, cond, body, |IfText(cond, body)|);
  }

  /**
   Pass 3 replaces a conditional block by its body when the condition holds
   and by nothing otherwise, then goes on after `{% endif %}`; a condition
   that fails to evaluate counts as false and nothing is raised.
   */
  lemma IfBlockExpands(cond: string, body: string, rest: string, data: Value)
    requires cond != [] && Free(cond, TagEnd) && Free(body, EndIf)
    ensures ExpandConditionals(IfText(cond, body) + rest, data) ==
      (if EvaluateCondition(cond, data) then body else []) + ExpandConditionals(rest, data)
  {
    var s := IfText(cond, body) + rest;
    IfBlockMatches(cond, body, rest);
    assert s[|IfText(cond, body)|..] == rest;
  }

  /** A dotted path holds no ` %}`: it has no space. */
  lemma PathHasNoTagEnd(p: string)
    requires IsDottedPath(p)
    ensures Free(p, TagEnd)
  {
    forall j | 0 <= j < |p|
      ensures !OccursAt(p, TagEnd, j)
    {
      if j + |TagEnd| <= |p| {
        assert p[j..j + |TagEnd|][0] == p[j];
      }
    }
  }

  /**
   A conditional block on a single path keeps its body exactly when the path
   names a non-empty string or an array, and leaves nothing otherwise.
   */
  lemma IfPathBlock(p: string, body: string, rest: string, data: Value)
    requires IsDottedPath(p) && Free(body, EndIf)
    ensures var v := Lookup(data, p);
      ExpandConditionals(IfText(p, body) + rest, data) ==
        (if v.Some? && (v.value.Arr? || (v.value.Str? && v.value.s != [])) then body else []) +
        ExpandConditionals(rest, data)
  {
    PathHasNoTagEnd(p);
    IfBlockExpands(p, body, rest, data);
    TestTruthTable(p, data);
  }

  // ---------------------------------------------------------------------------
  // Loop fields and pass 1

  /** No `{` after the first character: such a text cannot hold the start of `{{`. */
  predicate OpenBraceOnlyFirst(h: string)
  {
    forall i :: 1 <= i < |h| ==> h[i] != '{'
  }

  /** No `{{…}}` starts inside a text that has a `{` at most at its front, whatever follows it. */
  lemma NoPlaceholderInside(h: string, y: string, v: string, j: nat)
    requires OpenBraceOnlyFirst(h) && 2 <= |h| && j < |h|
    ensures !OccursAt(h + y, Placeholder(v), j)
  {
    var t, pat := h + y, Placeholder(v);
    if j + |pat| <= |t| {
      assert t[j..j + |pat|][0] == t[j] && t[j..j + |pat|][1] == t[j + 1];
      assert pat[0] == '{' && pat[1] == '{';
    }
  }

  /** A word has no `{`. */
  lemma WordHasNoBrace(w: string)
    requires IsWord(w)
    ensures forall i :: 0 <= i < |w| ==> w[i] != '{'
  {
  }

  /** A loop header has its only `{` at the front. */
  lemma LoopHeaderBraces(a: string, c: string)
    requires IsWord(a) && IsWord(c)
    ensures OpenBraceOnlyFirst(LoopHeader(a, c))
  {
    var h := LoopHeader(a, c);
    var n, m := |a|, |c|;
    LoopHeaderLayout(a, c, []);
    assert h + [] == h;
    WordHasNoBrace(a);
    WordHasNoBrace(c);
    forall i | 1 <= i < |h|
      ensures h[i] != '{'
    {
      if i < 7 {
        assert h[i] == h[..7][i] == ForOpen[i];
      } else if i < 7 + n {
        assert h[i] == h[7..7 + n][i - 7] == a[i - 7];
      } else if i < 11 + n {
        assert h[i] == h[7 + n..11 + n][i - 7 - n] == InWord[i - 7 - n];
      } else if i < 11 + n + m {
        assert h[i] == h[11 + n..11 + n + m][i - 11 - n] == c[i - 11 - n];
      } else {
        assert h[i] == h[11 + n + m..14 + n + m][i - 11 - n - m] == TagEnd[i - 11 - n - m];
      }
    }
  }

  lemma EndForBraces()
    ensures OpenBraceOnlyFirst(EndFor)
  {
  }

  /**
   Pass 1 for the name `v` turns a loop whose body is `{{v}}` into the same
   loop with the body replaced by the text of `v` in the top-level data.
   */
  lemma SubstituteLoopBody(a: string, c: string, v: string, data: Value)
    requires IsWord(a) && IsWord(c)
    ensures SubstituteVariables(LoopText(a, c, Placeholder(v)), [v], data) ==
      LoopText(a, c, ValueText(Lookup(data, v)))
  {
    var h, pat, rep := LoopHeader(a, c), Placeholder(v), ValueText(Lookup(data, v));
    var t := h + pat + EndFor;
    assert [v][..0] == [];
    assert LoopText(a, c, pat) == t;
    LoopHeaderBraces(a, c);
    forall j | 0 <= j < |h|
      ensures !OccursAt(t, pat, j)
    {
      NoPlaceholderInside(h, pat + EndFor, v, j);
      assert h + (pat + EndFor) == t;
    }
    assert t[|h|..|h| + |pat|] == pat;
    ReplaceAllAtFirstOccurrence(t, pat, rep, |h|);
    assert t[..|h|] == h && t[|h| + |pat|..] == EndFor;
    EndForBraces();
    forall j | 0 <= j < |EndFor|
      ensures !OccursAt(EndFor, pat, j)
    {
      NoPlaceholderInside(EndFor, [], v, j);
      assert EndFor + [] == EndFor;
    }
    ReplaceAllWithoutOccurrence(EndFor, pat, rep);
  }

  /** `N` copies of the empty text are empty. */
  lemma {:induction false} RepeatEmpty(n: nat)
    ensures Repeat([], n) == []
  {
    if n > 0 {
      RepeatEmpty(n - 1);
    }
  }

  /**
   The loop fields are blanked before the loops are expanded: when the scan
   has collected the name `a.p` from a loop body `{{a.p}}` and the top-level
   data has no such path, pass 1 empties the body, and the whole loop renders
   as the empty text whatever the elements of its collection hold.
   */
  lemma LoopFieldBlankedBeforeLoop(a: string, c: string, p: string, data: Value)
    requires IsWord(a) && IsWord(c) && IsDottedPath(p)
    requires Lookup(data, a + "." + p).None? && LoopItems(Lookup(data, c)).Some?
    ensures Render(LoopText(a, c, Placeholder(a + "." + p)), [a + "." + p], data) == Some([])
  {
    var v := a + "." + p;
    SubstituteLoopBody(a, c, v, data);
    var items := LoopItems(Lookup(data, c)).value;
    assert LoopText(a, c, []) + [] == LoopText(a, c, []);
    LoopBlockExpands(a, c, [], [], data);
    ItemsTextRepeat([], a, items, data);
    RepeatEmpty(|items|);
  }

  /**
   Pass 2 on its own would read the same field from each element: the loop
   over an array gives the elements' texts of the property `p`, in order.
   */
  lemma LoopFieldReadFromElements(a: string, c: string, p: string, data: Value, xs: seq<Value>)
    requires IsWord(a) && IsWord(c) && IsDottedPath(p) && Lookup(data, c) == Some(Arr(xs))
    ensures ExpandLoops(LoopText(a, c, Placeholder(a + "." + p)), data) ==
      Some(ConcatMap(xs, item => ValueText(Member(Some(item), p))))
  {
    var body := Placeholder(a + "." + p);
    var f := item => ItemText(body, a, item, data);
    var g := item => ValueText(Member(Some(item), p));
    forall item | true
      ensures f(item) == g(item)
    {
      AliasField(a, p, item, data);
    }
    ConcatMapSame(xs, f, g);
    PathHasNoPercent(a + "." + p, a, p);
    PlaceholderHasNoEndFor(a + "." + p);
    assert LoopText(a, c, body) + [] == LoopText(a, c, body);
    LoopBlockExpands(a, c, body, [], data);
    assert ConcatMap(xs, g) + [] == ConcatMap(xs, g);
  }

  /** Two functions that agree on every element give the same texts. */
  lemma {:induction false} ConcatMapSame(items: seq<Value>, f: Value -> string, g: Value -> string)
    requires forall x :: f(x) == g(x)
    ensures ConcatMap(items, f) == ConcatMap(items, g)
    decreases |items|
  {
    if items != [] {
      ConcatMapSame(items[..|items| - 1], f, g);
    }
  }

  /** A placeholder whose name has no `%` holds no `{% endfor %}`. */
  lemma PlaceholderHasNoEndFor(v: string)
    requires forall i :: 0 <= i < |v| ==> v[i] != '%'
    ensures Free(Placeholder(v), EndFor)
  {
    var t := Placeholder(v);
    forall j | 0 <= j < |t|
      ensures !OccursAt(t, EndFor, j)
    {
      if j + |EndFor| <= |t| {
        assert t[j..j + |EndFor|][1] == t[j + 1];
      }
    }
  }

  /** `a.p` for a word `a` and a dotted path `p` has no `%`. */
  lemma PathHasNoPercent(v: string, a: string, p: string)
    requires IsWord(a) && IsDottedPath(p) && v == a + "." + p
    ensures forall i :: 0 <= i < |v| ==> v[i] != '%'
  {
    forall i | 0 <= i < |v|
      ensures v[i] != '%'
    {
      if i < |a| {
        assert v[i] == a[i];
      } else if i > |a| {
        assert v[i] == p[i - |a| - 1];
      }
    }
  }
}
