/**
 The `TemplateParser` object itself.  `parse` empties the five fields, cuts
 the defaults block out of the template while writing its entries into the
 defaults map, and then walks the rest of the template with a cursor, filling
 the variable set, the loop and conditional lists and the node list.  `render`
 substitutes the variables of the last parse, expands loop blocks and then
 conditional blocks.

 Each method is proved against the specification functions of the modules
 `Defaults`, `Scanner` and `Renderer`, whose properties are proved there.
 */
module Parser {
  import opened Wrappers
  import opened Strings
  import opened Values
  import opened Defaults
  import opened Scanner
  import opened Renderer

  /** What `parse` returns: the variable set as a list, the defaults, the loops, the conditionals and the nodes. */
  datatype ParseResult = ParseResult(
    variables: seq<string>,
    defaults: map<string, string>,
    loops: seq<Loop>,
    conditionals: seq<Conditional>,
    structure: seq<Node>)

  /** One more line of the defaults block writes its entry, if it has one, over the map of the earlier lines. */
  lemma EntriesOneMore(lines: seq<string>, i: nat)
    requires i < |lines|
    ensures Entries(lines[..i + 1]) ==
      match ParseLine(lines[i])
      case None => Entries(lines[..i])
      case Some((k, v)) => Entries(lines[..i])[k := v]
  {
    var es := LineEntries(lines[..i + 1]);
    assert es[..|es| - 1] == LineEntries(lines[..i]);
    assert es[|es| - 1] == ParseLine(lines[i]);
  }

  /** Writing a key over a merged map is writing it over the right-hand map. */
  lemma UpdateMerged(m: map<string, string>, e: map<string, string>, k: string, v: string)
    ensures (m + e)[k := v] == m + e[k := v]
  {
  }

  /** The block the source cuts out: the first open marker and the first close marker after it. */
  lemma FoundBlock(t: string, s: int, e: int)
    requires s == IndexOf(t, Open, 0) && s >= 0 && e == IndexOf(t, Close, s) && e >= 0
    ensures FindBlock(t) == Some(Block(s, e))
  {
  }

  lemma ExtractFound(t: string, b: Block)
    requires FindBlock(t) == Some(b)
    ensures ExtractDefaults(t).0 == Entries(BlockLines(t, b))
    ensures ExtractDefaults(t).1 == t[..b.start] + t[b.end + CloseSkip..]
  {
  }

  /** The scan from a cursor with no `{{` after it: the rest of the text is one literal span. */
  lemma PiecesWithoutOpen(t: string, pos: nat)
    requires pos < |t| && IndexOf(t, "{{", pos) == -1
    ensures Pieces(t, pos) == [Lit(t[pos..])]
  {
  }

  /** The scan from a cursor with the next `{{` at `vs`: the text up to it, then what starts there. */
  lemma PiecesWithOpen(t: string, pos: nat, vs: nat)
    requires pos < |t| && IndexOf(t, "{{", pos) == vs
    ensures vs + 2 <= |t|
    ensures Pieces(t, pos) ==
      (if pos < vs then [Lit(t[pos..vs])] else []) + PiecesAt(t, vs, IndexOf(t, "}}", vs + 2))
  {
  }

  /** A placeholder that is not a control tag adds one variable node and nothing else. */
  lemma VariablePiece(p: Piece)
    requires p.Tag? && !IsControl(p.content)
    ensures NodesOf(p) == [Variable(p.content, p.start)]
    ensures LoopsOfPiece(p) == [] && ConditionalsOfPiece(p) == []
  {
  }

  /** An unclosed `{{` makes the rest of the text one literal span. */
  lemma PiecesAtUnclosed(t: string, vs: nat)
    requires vs + 2 <= |t|
    ensures PiecesAt(t, vs, -1) == [Lit(t[vs..])]
  {
  }

  /** A closed placeholder is read, and the scan goes on after its `}}`. */
  lemma PiecesAtTag(t: string, vs: nat, ve: nat, next: nat)
    requires vs + 2 <= ve && next == ve + 2 <= |t|
    ensures PiecesAt(t, vs, ve) == [Tag(Trim(t[vs + 2..ve]), vs, ve)] + Pieces(t, next)
  {
  }

  lemma Regroup(done: seq<Piece>, p: Piece, rest: seq<Piece>)
    ensures done + ([p] + rest) == (done + [p]) + rest
  {
  }

  /**
   The fields after the spans `done`, with what the span `p` contributes
   added, are the fields after the spans `done + [p]`.
   */
  lemma Advance(
    os: seq<Node>, ol: seq<Loop>, oc: seq<Conditional>, ov: seq<string>,
    s: seq<Node>, l: seq<Loop>, c: seq<Conditional>, v: seq<string>,
    done: seq<Piece>, p: Piece)
    requires s == os + Structure(done) && l == ol + LoopsOf(done)
    requires c == oc + ConditionalsOf(done) && v == AddAll(ov, done)
    ensures s + NodesOf(p) == os + Structure(done + [p])
    ensures l + LoopsOfPiece(p) == ol + LoopsOf(done + [p])
    ensures c + ConditionalsOfPiece(p) == oc + ConditionalsOf(done + [p])
    ensures AddPiece(v, p) == AddAll(ov, done + [p])
  {
    StructureOneMore(os, done, p);
    LoopsOneMore(ol, done, p);
    ConditionalsOneMore(oc, done, p);
    AddAllOneMore(ov, done, p);
  }

  lemma StructureOneMore(os: seq<Node>, done: seq<Piece>, p: Piece)
    ensures os + Structure(done) + NodesOf(p) == os + Structure(done + [p])
  {
    StructureAppend(done, [p]);
    assert [p][1..] == [];
    assert Structure([p]) == NodesOf(p) + Structure([]);
  }

  lemma LoopsOneMore(ol: seq<Loop>, done: seq<Piece>, p: Piece)
    ensures ol + LoopsOf(done) + LoopsOfPiece(p) == ol + LoopsOf(done + [p])
  {
    LoopsAppend(done, [p]);
    assert [p][1..] == [];
    assert LoopsOf([p]) == LoopsOfPiece(p) + LoopsOf([]);
  }

  lemma ConditionalsOneMore(oc: seq<Conditional>, done: seq<Piece>, p: Piece)
    ensures oc + ConditionalsOf(done) + ConditionalsOfPiece(p) == oc + ConditionalsOf(done + [p])
  {
    ConditionalsAppend(done, [p]);
    assert [p][1..] == [];
    assert ConditionalsOf([p]) == ConditionalsOfPiece(p) + ConditionalsOf([]);
  }

  lemma AddAllOneMore(ov: seq<string>, done: seq<Piece>, p: Piece)
    ensures AddPiece(AddAll(ov, done), p) == AddAll(ov, done + [p])
  {
    AddAllAppend(ov, done, [p]);
    assert [p][1..] == [];
    assert AddAll(AddAll(ov, done), [p]) == AddAll(AddPiece(AddAll(ov, done), p), []);
  }

  class TemplateParser {
    /** The variable set, in insertion order. */
    var variables: seq<string>
    var defaultsSection: map<string, string>
    var loops: seq<Loop>
    var conditionals: seq<Conditional>
    var templateStructure: seq<Node>

    constructor()
      ensures variables == [] && defaultsSection == map[] && loops == [] && conditionals == []
      ensures templateStructure == []
    {
      variables := [];
      defaultsSection := map[];
      loops := [];
      conditionals := [];
      templateStructure := [];
    }

    /**
     `parse(template)`: the fields hold what the defaults block defines and
     the folds of the scan of what is left of the template; the result
     reports them, with each variable name once.
     */
    method Parse(template: string) returns (r: ParseResult)
      modifies this
      ensures defaultsSection == ExtractDefaults(template).0
      ensures var ps := Pieces(ExtractDefaults(template).1, 0);
        variables == AddAll([], ps) && loops == LoopsOf(ps) &&
        conditionals == ConditionalsOf(ps) && templateStructure == Structure(ps)
      ensures r == ParseResult(variables, defaultsSection, loops, conditionals, templateStructure)
      ensures NoDuplicates(r.variables)
      ensures forall x :: x in r.variables <==> x in VariableNames(Pieces(ExtractDefaults(template).1, 0))
    {
      variables := [];
      defaultsSection := map[];
      loops := [];
      conditionals := [];
      templateStructure := [];
      var templateWithoutDefaults := ParseDefaultsSection(template);
      assert defaultsSection == ExtractDefaults(template).0 by {
        assert map[] + ExtractDefaults(template).0 == ExtractDefaults(template).0;
      }
      ParseTemplate(templateWithoutDefaults);
      assert [] + Structure(Pieces(templateWithoutDefaults, 0)) == Structure(Pieces(templateWithoutDefaults, 0));
      assert [] + LoopsOf(Pieces(templateWithoutDefaults, 0)) == LoopsOf(Pieces(templateWithoutDefaults, 0));
      assert [] + ConditionalsOf(Pieces(templateWithoutDefaults, 0)) == ConditionalsOf(Pieces(templateWithoutDefaults, 0));
      AddAllIsUnion([], Pieces(templateWithoutDefaults, 0));
      r := ParseResult(variables, defaultsSection, loops, conditionals, templateStructure);
    }

    /**
     `_parseDefaultsSection(template)`: the entries of the defaults block
     are written over the defaults map one line at a time, and the template
     is returned with the block cut out; without a complete block nothing is
     written and the template comes back whole.
     */
    method ParseDefaultsSection(template: string) returns (rest: string)
      modifies this
      ensures rest == ExtractDefaults(template).1
      ensures defaultsSection == old(defaultsSection) + ExtractDefaults(template).0
      ensures variables == old(variables) && loops == old(loops) && conditionals == old(conditionals)
      ensures templateStructure == old(templateStructure)
    {
      var defaultsStart := IndexOf(template, Open, 0);
      if defaultsStart == -1 {
        assert defaultsSection + map[] == defaultsSection;
        return template;
      }
      var defaultsEnd := IndexOf(template, Close, defaultsStart);
      if defaultsEnd == -1 {
        assert defaultsSection + map[] == defaultsSection;
        return template;
      }
      FoundBlock(template, defaultsStart, defaultsEnd);
      ExtractFound(template, Block(defaultsStart, defaultsEnd));
      var lines := Split(Trim(template[defaultsStart + |Open|..defaultsEnd]), '\n');
      var i := 0;
      assert lines[..0] == [];
      while i < |lines|
        invariant 0 <= i <= |lines|
        invariant defaultsSection == old(defaultsSection) + Entries(lines[..i])
        invariant variables == old(variables) && loops == old(loops) && conditionals == old(conditionals)
        invariant templateStructure == old(templateStructure)
      {
        EntriesOneMore(lines, i);
        if ParseLine(lines[i]).Some? {
          UpdateMerged(old(defaultsSection), Entries(lines[..i]), ParseLine(lines[i]).value.0, ParseLine(lines[i]).value.1);
        }
        ParseDefaultsLine(lines[i]);
        i := i + 1;
      }
      assert lines[..i] == lines;
      rest := template[..defaultsStart] + template[defaultsEnd + CloseSkip..];
    }

    /**
     The callback `_parseDefaultsSection` runs on each line of the block: a
     line that is not blank, not a comment and has a colon after its first
     character writes its key and value over the map; any other line
     changes nothing.
     */
    method ParseDefaultsLine(line: string)
      modifies this
      ensures ParseLine(line).None? ==> defaultsSection == old(defaultsSection)
      ensures ParseLine(line).Some? ==>
        defaultsSection == old(defaultsSection)[ParseLine(line).value.0 := ParseLine(line).value.1]
      ensures variables == old(variables) && loops == old(loops) && conditionals == old(conditionals)
      ensures templateStructure == old(templateStructure)
    {
      var trimmedLine := Trim(line);
      if trimmedLine != [] && trimmedLine[0] != '#' {
        var colonIndex := IndexOf(trimmedLine, ":", 0);
        if colonIndex > 0 {
          var key := Key(trimmedLine, colonIndex);
          var value := Unquote(Trim(trimmedLine[colonIndex + 1..]));
          assert ParseLine(line) == Some((key, value));
          defaultsSection := defaultsSection[key := value];
        }
      }
    }

    /**
     `_parseTemplate(template)`: the cursor loop.  The node list, the loop
     and conditional lists and the variable set grow by what each span of
     the scan contributes, in order.
     */
    method ParseTemplate(template: string)
      modifies this
      ensures templateStructure == old(templateStructure) + Structure(Pieces(template, 0))
      ensures loops == old(loops) + LoopsOf(Pieces(template, 0))
      ensures conditionals == old(conditionals) + ConditionalsOf(Pieces(template, 0))
      ensures variables == AddAll(old(variables), Pieces(template, 0))
      ensures defaultsSection == old(defaultsSection)
    {
      var currentPos: nat := 0;
      var len := |template|;
      ghost var all := Pieces(template, 0);
      ghost var done: seq<Piece> := [];
      assert [] + all == all;

      while currentPos < len
        invariant currentPos <= len
        invariant all == done + Pieces(template, currentPos)
        invariant templateStructure == old(templateStructure) + Structure(done)
        invariant loops == old(loops) + LoopsOf(done)
        invariant conditionals == old(conditionals) + ConditionalsOf(done)
        invariant variables == AddAll(old(variables), done)
        invariant defaultsSection == old(defaultsSection)
        decreases len - currentPos
      {
        var varStart := IndexOf(template, "{{", currentPos);
        if varStart == -1 {
          var p := Lit(template[currentPos..]);
          PiecesWithoutOpen(template, currentPos);
          Advance(old(templateStructure), old(loops), old(conditionals), old(variables),
            templateStructure, loops, conditionals, variables, done, p);
          if currentPos < len {
            templateStructure := templateStructure + [Text(template[currentPos..])];
          }
          done := done + [p];
          break;
        }

        var closed, next;
        closed, next, done := ParseRound(template, currentPos, varStart,
          old(templateStructure), old(loops), old(conditionals), old(variables), done);
        if !closed {
          break;
        }
        currentPos := next;
      }
      assert all == done by {
        if currentPos == len {
          assert done + [] == done;
        }
      }
    }

    /**
     One round of the cursor loop of `_parseTemplate` that finds a `{{` at
     `varStart`: the text before it becomes a text node when there is any,
     and `ParseOpened` reads the placeholder.  `done` is what the earlier
     rounds read, with `os`, `ol`, `oc` and `ov` the fields before the first
     round.
     */
    method ParseRound(template: string, currentPos: nat, varStart: nat,
      ghost os: seq<Node>, ghost ol: seq<Loop>, ghost oc: seq<Conditional>, ghost ov: seq<string>,
      ghost done: seq<Piece>)
      returns (closed: bool, next: nat, ghost done': seq<Piece>)
      requires currentPos < |template| && IndexOf(template, "{{", currentPos) == varStart
      requires templateStructure == os + Structure(done) && loops == ol + LoopsOf(done)
      requires conditionals == oc + ConditionalsOf(done) && variables == AddAll(ov, done)
      modifies this
      ensures templateStructure == os + Structure(done') && loops == ol + LoopsOf(done')
      ensures conditionals == oc + ConditionalsOf(done') && variables == AddAll(ov, done')
      ensures defaultsSection == old(defaultsSection)
      ensures currentPos < next <= |template|
      ensures closed ==> done + Pieces(template, currentPos) == done' + Pieces(template, next)
      ensures !closed ==> done + Pieces(template, currentPos) == done'
    {
      PiecesWithOpen(template, currentPos, varStart);
      ghost var tail := PiecesAt(template, varStart, IndexOf(template, "}}", varStart + 2));
      ghost var before := done;
      if currentPos < varStart {
        var p := Lit(template[currentPos..varStart]);
        Advance(os, ol, oc, ov, templateStructure, loops, conditionals, variables, done, p);
        templateStructure := templateStructure + [Text(template[currentPos..varStart])];
        Regroup(done, p, tail);
        before := done + [p];
      } else {
        assert [] + tail == tail;
      }
      assert done + Pieces(template, currentPos) == before + tail;
      closed, next, done' := ParseOpened(template, varStart, os, ol, oc, ov, before);
    }

    /**
     The rest of one round of the cursor loop of `_parseTemplate`, from the
     `{{` at `varStart`: an unclosed placeholder becomes a text node and ends
     the scan; a closed one goes to `ParsePlaceholder` and the cursor moves
     past its `}}`.  `done` is what the earlier rounds read, with `os`, `ol`,
     `oc` and `ov` the fields before the first round.
     */
    method ParseOpened(template: string, varStart: nat,
      ghost os: seq<Node>, ghost ol: seq<Loop>, ghost oc: seq<Conditional>, ghost ov: seq<string>,
      ghost done: seq<Piece>)
      returns (closed: bool, next: nat, ghost done': seq<Piece>)
      requires varStart + 2 <= |template|
      requires templateStructure == os + Structure(done) && loops == ol + LoopsOf(done)
      requires conditionals == oc + ConditionalsOf(done) && variables == AddAll(ov, done)
      modifies this
      ensures templateStructure == os + Structure(done') && loops == ol + LoopsOf(done')
      ensures conditionals == oc + ConditionalsOf(done') && variables == AddAll(ov, done')
      ensures defaultsSection == old(defaultsSection)
      ensures varStart < next <= |template|
      ensures closed ==>
        done + PiecesAt(template, varStart, IndexOf(template, "}}", varStart + 2)) == done' + Pieces(template, next)
      ensures !closed ==>
        done + PiecesAt(template, varStart, IndexOf(template, "}}", varStart + 2)) == done'
    {
      var varEnd := IndexOf(template, "}}", varStart + 2);
      if varEnd == -1 {
        var p := Lit(template[varStart..]);
        PiecesAtUnclosed(template, varStart);
        Advance(os, ol, oc, ov, templateStructure, loops, conditionals, variables, done, p);
        templateStructure := templateStructure + [Text(template[varStart..])];
        return false, |template|, done + [p];
      }

      var variableContent := Trim(template[varStart + 2..varEnd]);
      var p := Tag(variableContent, varStart, varEnd);
      ghost var s0, l0, c0, v0 := templateStructure, loops, conditionals, variables;
      ParsePlaceholder(variableContent, varStart, varEnd);
      Advance(os, ol, oc, ov, s0, l0, c0, v0, done, p);
      next := varEnd + 2;
      PiecesAtTag(template, varStart, varEnd, next);
      Regroup(done, p, Pieces(template, next));
      closed, done' := true, done + [p];
    }

    /**
     The handling of one closed placeholder in `_parseTemplate`: a control
     tag goes to `_parseControlStructure`, any other content is added to the
     variable set and recorded as a variable node at the index of its `{{`.
     */
    method ParsePlaceholder(content: string, start: nat, end: nat)
      modifies this
      ensures templateStructure == old(templateStructure) + NodesOf(Tag(content, start, end))
      ensures loops == old(loops) + LoopsOfPiece(Tag(content, start, end))
      ensures conditionals == old(conditionals) + ConditionalsOfPiece(Tag(content, start, end))
      ensures variables == AddPiece(old(variables), Tag(content, start, end))
      ensures defaultsSection == old(defaultsSection)
    {
      if StartsWith(content, "%") {
        ParseControlStructure(content, start, end);
      } else {
        if content !in variables {
          variables := variables + [content];
        }
        templateStructure := templateStructure + [Variable(content, start)];
        VariablePiece(Tag(content, start, end));
      }
    }

    /**
     `_parseControlStructure(content, start, end)` for a placeholder whose
     content starts with `%`: the nodes, loops and conditionals the tag's
     directive adds; the variable set is left alone.
     */
    method ParseControlStructure(content: string, start: nat, end: nat)
      requires IsControl(content)
      modifies this
      ensures templateStructure == old(templateStructure) + NodesOf(Tag(content, start, end))
      ensures loops == old(loops) + LoopsOfPiece(Tag(content, start, end))
      ensures conditionals == old(conditionals) + ConditionalsOfPiece(Tag(content, start, end))
      ensures variables == old(variables) && defaultsSection == old(defaultsSection)
    {
      var controlContent := Trim(content[1..]);
      if StartsWith(controlContent, "for ") {
        ParseForLoop(controlContent, start, end);
      } else if StartsWith(controlContent, "if ") {
        ParseIfStatement(controlContent, start, end);
      } else if StartsWith(controlContent, "endif") || StartsWith(controlContent, "endfor") {
        ParseEndBlock(controlContent, start, end);
      }
    }

    /**
     `_parseForLoop(content, start, end)`: when `for\s+(\w+)\s+in\s+(\w+)`
     matches somewhere in the content, a loop and a `for_start` node are
     recorded with the two captured words; otherwise nothing changes.
     */
    method ParseForLoop(content: string, start: nat, end: nat)
      modifies this
      ensures Search(content, 0, ForPattern).None? ==>
        loops == old(loops) && templateStructure == old(templateStructure)
      ensures Search(content, 0, ForPattern).Some? ==>
        var gs := Search(content, 0, ForPattern).value;
        |gs| == 2 &&
        loops == old(loops) + [Loop(gs[0], gs[1], start, end)] &&
        templateStructure == old(templateStructure) + [ForStart(gs[0], gs[1], start)]
      ensures variables == old(variables) && conditionals == old(conditionals)
      ensures defaultsSection == old(defaultsSection)
    {
      var match_ := Search(content, 0, ForPattern);
      assert GroupCount(ForPattern) == 2;
      if match_.Some? {
        var loopVar := match_.value[0];
        var collection := match_.value[1];
        loops := loops + [Loop(loopVar, collection, start, end)];
        templateStructure := templateStructure + [ForStart(loopVar, collection, start)];
      }
    }

    /**
     `_parseIfStatement(content, start, end)`: when `if\s+(.+)` matches
     somewhere in the content, a conditional and an `if_start` node are
     recorded with the trimmed captured condition; otherwise nothing changes.
     On a trimmed one-line `if ` text the condition is the text after `if `,
     trimmed.
     */
    method ParseIfStatement(content: string, start: nat, end: nat)
      modifies this
      ensures Search(content, 0, IfPattern).None? ==>
        conditionals == old(conditionals) && templateStructure == old(templateStructure)
      ensures Search(content, 0, IfPattern).Some? ==>
        var gs := Search(content, 0, IfPattern).value;
        |gs| == 1 &&
        conditionals == old(conditionals) + [Conditional(Trim(gs[0]), start, end)] &&
        templateStructure == old(templateStructure) + [IfStart(Trim(gs[0]), start)]
      ensures IsTrimmed(content) && StartsWith(content, "if ") && OneLine(content) ==>
        conditionals == old(conditionals) + [Conditional(Trim(content[3..]), start, end)] &&
        templateStructure == old(templateStructure) + [IfStart(Trim(content[3..]), start)]
      ensures variables == old(variables) && loops == old(loops)
      ensures defaultsSection == old(defaultsSection)
    {
      if IsTrimmed(content) && StartsWith(content, "if ") && OneLine(content) {
        ghost var n := IfMatchReads(content);
      }
      var match_ := Search(content, 0, IfPattern);
      assert GroupCount(IfPattern) == 1;
      if match_.Some? {
        var condition := Trim(match_.value[0]);
        conditionals := conditionals + [Conditional(condition, start, end)];
        templateStructure := templateStructure + [IfStart(condition, start)];
      }
    }

    /**
     `_parseEndBlock(content, start, end)`: a `for_end` node for content
     starting with `endfor`, else an `if_end` node for content starting with
     `endif`, else nothing.
     */
    method ParseEndBlock(content: string, start: nat, end: nat)
      modifies this
      ensures StartsWith(content, "endfor") ==> templateStructure == old(templateStructure) + [ForEnd(start)]
      ensures !StartsWith(content, "endfor") && StartsWith(content, "endif") ==>
        templateStructure == old(templateStructure) + [IfEnd(start)]
      ensures !StartsWith(content, "endfor") && !StartsWith(content, "endif") ==>
        templateStructure == old(templateStructure)
      ensures variables == old(variables) && loops == old(loops) && conditionals == old(conditionals)
      ensures defaultsSection == old(defaultsSection)
    {
      if StartsWith(content, "endfor") {
        templateStructure := templateStructure + [ForEnd(start)];
      } else if StartsWith(content, "endif") {
        templateStructure := templateStructure + [IfEnd(start)];
      }
    }

    /**
     `render(template, data)` with the variable set of the last parse: pass 1
     replaces each variable's placeholder in set order, then the loop and
     conditional passes run; `None` when a loop's collection is an object,
     which the source's `for … of` rejects by throwing.
     */
    method Render(template: string, data: Value) returns (r: Option<string>)
      ensures r == Renderer.Render(template, variables, data)
    {
      var output := template;
      var i := 0;
      while i < |variables|
        invariant 0 <= i <= |variables|
        invariant output == SubstituteVariables(template, variables[..i], data)
      {
        var variable := variables[i];
        var value := GetValueFromPath(data, variable);
        assert variables[..i + 1][..i] == variables[..i];
        output := ReplaceAll(output, Placeholder(variable), ValueText(value));
        i := i + 1;
      }
      assert variables[..i] == variables;
      var looped := ExpandLoops(output, data);
      if looped.None? {
        return None;
      }
      r := Some(ExpandConditionals(looped.value, data));
    }

    /**
     The replacement `render` computes for one matched loop block: the
     collection is looked up, and the body, with its placeholders replaced
     for each element, is appended once per element; an object collection
     is not iterable and the loop throws.
     */
    method ExpandLoop(b: LoopBlock, data: Value) returns (r: Option<string>)
      ensures r == LoopOutput(b, data)
    {
      var value := GetValueFromPath(data, b.collection);
      var items := LoopItems(value);
      if items.None? {
        return None;
      }
      var xs := items.value;
      var loopOutput := "";
      var k := 0;
      assert xs[..0] == [];
      while k < |xs|
        invariant 0 <= k <= |xs|
        invariant loopOutput == ItemsText(b.body, b.alias, xs[..k], data)
      {
        var item := xs[k];
        var itemContent := ItemText(b.body, b.alias, item, data);
        ItemsTextAppend(b.body, b.alias, xs[..k], [item], data);
        assert xs[..k + 1] == xs[..k] + [item];
        ItemsTextOne(b.body, b.alias, item, data);
        loopOutput := loopOutput + itemContent;
        k := k + 1;
      }
      assert xs[..k] == xs;
      r := Some(loopOutput);
    }

    /**
     `_getValueFromPath(data, path)`: the path is split at dots and walked
     one key at a time through objects; the first segment that is not a key
     of an object gives `undefined`.
     */
    method GetValueFromPath(data: Value, path: string) returns (r: Option<Value>)
      ensures r == Lookup(data, path)
    {
      var parts := Split(path, '.');
      var value := data;
      var i := 0;
      assert parts[..0] == [];
      while i < |parts|
        invariant 0 <= i <= |parts|
        invariant Walk(data, parts[..i]) == Some(value)
      {
        var part := parts[i];
        assert parts[..i + 1][..i] == parts[..i];
        if value.Obj? && part in value.fields {
          value := value.fields[part];
        } else {
          WalkMissingIsFinal(data, parts[..i + 1], parts[i + 1..]);
          assert parts[..i + 1] + parts[i + 1..] == parts;
          return None;
        }
        i := i + 1;
      }
      assert parts[..i] == parts;
      r := Some(value);
    }
  }

  /** The text of a single element's copy of the body. */
  lemma ItemsTextOne(body: string, alias: string, item: Value, data: Value)
    ensures ItemsText(body, alias, [item], data) == ItemText(body, alias, item, data)
  {
    var f := x => ItemText(body, alias, x, data);
    assert [item][..0] == [];
    assert ConcatMap([item], f) == ConcatMap([], f) + f(item);
  }
}
