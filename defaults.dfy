/**
 The defaults block of a template (`_parseDefaultsSection`): the text between
 the first `{% defaults %}` and the first `{% enddefaults %}` after it holds
 `key: value` lines, one per line, with `#` comment lines and blank lines
 ignored.  The functions here specify what the block yields and what is left
 of the template once it is cut out; the class in module `Parser` performs the
 same work step by step.
 */
module Defaults {
  import opened Wrappers
  import opened Strings

  const Open: string := "{% defaults %}"
  const Close: string := "{% enddefaults %}"

  /**
   The number of characters cut after the start of the close marker.  The
   close marker is 17 characters long but the template parser skips 16 of
   them, so the final `}` of the marker stays in the template.
   */
  const CloseSkip: nat := 16

  /** Where the block sits: the index of its open marker and of its close marker. */
  datatype Block = Block(start: nat, end: nat)

  /** A close marker never starts inside an open marker: they share no suffix-prefix overlap. */
  lemma CloseNotInsideOpen(t: string, s: nat, j: nat)
    requires OccursAt(t, Open, s) && s <= j < s + |Open|
    ensures !OccursAt(t, Close, j)
  {
    assert t[s..s + |Open|] == Open;
    if j + |Close| <= |t| {
      if j == s {
        assert t[j..j + |Close|][3] == Open[3] != Close[3];
      } else {
        assert t[j..j + |Close|][0] == Open[j - s] != Close[0];
      }
    }
  }

  /**
   The first open marker and the first close marker at or after it, when
   both exist; the close marker then lies wholly after the open marker.
   */
  function FindBlock(t: string): (r: Option<Block>)
    ensures r.Some? ==> OccursAt(t, Open, r.value.start) && OccursAt(t, Close, r.value.end)
    ensures r.Some? ==> r.value.start + |Open| <= r.value.end && r.value.end + |Close| <= |t|
    ensures r.None? <==>
      (forall j :: 0 <= j ==> !OccursAt(t, Open, j)) ||
      (forall j :: IndexOf(t, Open, 0) <= j ==> !OccursAt(t, Close, j))
    ensures r.Some? ==> forall j :: 0 <= j < r.value.start ==> !OccursAt(t, Open, j)
    ensures r.Some? ==> forall j :: r.value.start <= j < r.value.end ==> !OccursAt(t, Close, j)
  {
    var s := IndexOf(t, Open, 0);
    if s < 0 then None
    else
      var e := IndexOf(t, Close, s);
      if e < 0 then None
      else
        assert s + |Open| <= e by {
          if e < s + |Open| {
            CloseNotInsideOpen(t, s, e);
          }
        }
        Some(Block(s, e))
  }

  /**
   `value` with one pair of matching surrounding quotes removed.  A value that
   is a single quote character is kept: `substring(1, 0)` swaps its bounds
   and returns that character.
   */
  function Unquote(v: string): (r: string)
    ensures |v| >= 2 && ((v[0] == '"' && v[|v| - 1] == '"') || (v[0] == '\'' && v[|v| - 1] == '\'')) ==>
      v == [v[0]] + r + [v[0]]
    ensures !(|v| >= 2 && (v[0] == '"' || v[0] == '\'') && v[|v| - 1] == v[0]) ==> r == v
  {
    if |v| >= 2 && ((v[0] == '"' && v[|v| - 1] == '"') || (v[0] == '\'' && v[|v| - 1] == '\'')) then
      v[1..|v| - 1]
    else v
  }

  /**
   The entry one line of the block contributes: none for a blank line, a
   comment or a line without a colon after its first character; otherwise
   the trimmed text before the first colon and the unquoted trimmed text
   after it.
   */
  function ParseLine(line: string): (r: Option<(string, string)>)
    ensures r.Some? <==> Trim(line) != [] && Trim(line)[0] != '#' && IndexOf(Trim(line), ":", 0) > 0
    ensures r.Some? ==> r.value.0 != [] && IsTrimmed(r.value.0) && ':' !in r.value.0 && r.value.0[0] != '#'
  {
    var t := Trim(line);
    if t == [] || t[0] == '#' then None
    else
      var c := IndexOf(t, ":", 0);
      if c <= 0 then None
      else Some((Key(t, c), Unquote(Trim(t[c + 1..]))))
  }

  /** The key of a trimmed line whose first colon is at `c`: the trimmed text before the colon. */
  function Key(t: string, c: nat): (k: string)
    requires 0 < c < |t| && !IsSpace(t[0])
    requires c == IndexOf(t, ":", 0)
    ensures k != [] && IsTrimmed(k) && ':' !in k && k[0] == t[0]
    ensures k == Trim(t[..c])
  {
    var x := t[..c];
    assert x[0] == t[0];
    assert TrimStart(x) == x;
    var k := TrimEnd(x);
    assert k != [] by {
      if k == [] {
        TrimEndDropsSpaces(x, 0);
      }
    }
    assert ':' !in k by {
      forall j | 0 <= j < |k|
        ensures k[j] != ':'
      {
        OccursAtChar(t, ':', j);
      }
    }
    TrimOfUnpadded(x);
    k
  }

  /**
   A line whose trimmed text is `x`, a colon and `y`, with no colon in `x`,
   defines the key `x` and the value `y`, both trimmed and the value
   unquoted, unless `x` is empty or starts a comment.
   */
  lemma LineReads(line: string, x: string, y: string)
    requires Trim(line) == x + ":" + y && ':' !in x
    ensures ParseLine(line) == if x == [] || x[0] == '#' then None else Some((Trim(x), Unquote(Trim(y))))
  {
    var t := Trim(line);
    assert t[|x|] == ':';
    OccursAtChar(t, ':', |x|);
    forall i | 0 <= i < |x|
      ensures !OccursAt(t, ":", i)
    {
      assert t[i] == x[i];
      OccursAtChar(t, ':', i);
    }
    IndexOfIs(t, ":", 0, |x|);
    assert t[..|x|] == x && t[|x| + 1..] == y;
    if x != [] {
      assert t[0] == x[0];
    }
  }

  /** The entry of each line, in order. */
  function LineEntries(lines: seq<string>): (r: seq<Option<(string, string)>>)
    ensures |r| == |lines| && forall i :: 0 <= i < |lines| ==> r[i] == ParseLine(lines[i])
  {
    seq(|lines|, i requires 0 <= i < |lines| => ParseLine(lines[i]))
  }

  /**
   The map built by writing the entries in order, each over the map the
   earlier ones built, so a later duplicate key wins.
   */
  function Assign(es: seq<Option<(string, string)>>): map<string, string>
  {
    if es == [] then map[]
    else
      var before := Assign(es[..|es| - 1]);
      match es[|es| - 1]
      case None => before
      case Some((k, v)) => before[k := v]
  }

  /** The defaults map the lines of a block define. */
  function Entries(lines: seq<string>): map<string, string>
  {
    Assign(LineEntries(lines))
  }

  /** A key takes its value from the last entry that writes it. */
  lemma {:induction false} LastEntryWins(es: seq<Option<(string, string)>>, i: nat, k: string)
    requires i < |es| && es[i].Some? && es[i].value.0 == k
    requires forall j :: i < j < |es| ==> es[j].None? || es[j].value.0 != k
    ensures k in Assign(es) && Assign(es)[k] == es[i].value.1
    decreases |es|
  {
    if i < |es| - 1 {
      var init := es[..|es| - 1];
      assert forall j :: i < j < |init| ==> init[j] == es[j];
      LastEntryWins(init, i, k);
    }
  }

  /** A key no entry writes is absent from the map. */
  lemma {:induction false} UnwrittenKeyAbsent(es: seq<Option<(string, string)>>, k: string)
    requires forall j :: 0 <= j < |es| ==> es[j].None? || es[j].value.0 != k
    ensures k !in Assign(es)
    decreases |es|
  {
    if es != [] {
      var init := es[..|es| - 1];
      assert forall j :: 0 <= j < |init| ==> init[j] == es[j];
      UnwrittenKeyAbsent(init, k);
    }
  }

  /**
   The keys of the defaults map are the keys of the lines that define an
   entry, and each takes the value of the last such line.
   */
  lemma LastLineWins(lines: seq<string>, i: nat, k: string)
    requires i < |lines| && ParseLine(lines[i]).Some? && ParseLine(lines[i]).value.0 == k
    requires forall j :: i < j < |lines| ==> ParseLine(lines[j]).None? || ParseLine(lines[j]).value.0 != k
    ensures k in Entries(lines) && Entries(lines)[k] == ParseLine(lines[i]).value.1
  {
    LastEntryWins(LineEntries(lines), i, k);
  }

  /** A key no line defines is absent from the defaults map. */
  lemma UndefinedKeyAbsent(lines: seq<string>, k: string)
    requires forall j :: 0 <= j < |lines| ==> ParseLine(lines[j]).None? || ParseLine(lines[j]).value.0 != k
    ensures k !in Entries(lines)
  {
    UnwrittenKeyAbsent(LineEntries(lines), k);
  }

  /** The lines between the markers: the trimmed text between them, split at line feeds. */
  function BlockLines(t: string, b: Block): seq<string>
    requires b.start + |Open| <= b.end <= |t|
  {
    Split(Trim(t[b.start + |Open|..b.end]), '\n')
  }

  /** The template with the block cut out from its open marker to the 16th character of its close marker. */
  function Strip(t: string, b: Block): string
    requires b.start <= b.end && b.end + |Close| <= |t|
  {
    t[..b.start] + t[b.end + CloseSkip..]
  }

  /**
   `_parseDefaultsSection` as a function of the template: the defaults map and
   the template left for the scanner.
   */
  function ExtractDefaults(t: string): (map<string, string>, string)
  {
    match FindBlock(t)
    case None => (map[], t)
    case Some(b) => (Entries(BlockLines(t, b)), Strip(t, b))
  }

  /** Without an open marker, or without a close marker after it, nothing is extracted and nothing cut. */
  lemma NoBlockLeavesTemplate(t: string)
    requires (forall j :: 0 <= j ==> !OccursAt(t, Open, j)) ||
             (forall j :: IndexOf(t, Open, 0) <= j ==> !OccursAt(t, Close, j))
    ensures ExtractDefaults(t) == (map[], t)
  {
  }

  /**
   Cutting the block keeps everything before the open marker and everything
   after the close marker, and leaves behind the final `}` of the close marker.
   */
  lemma StripKeepsOutside(t: string, b: Block)
    requires FindBlock(t) == Some(b)
    ensures Strip(t, b) == t[..b.start] + "}" + t[b.end + |Close|..]
  {
    assert t[b.end..b.end + |Close|] == Close;
    assert t[b.end + CloseSkip] == Close[16];
    assert t[b.end + CloseSkip..] == "}" + t[b.end + |Close|..];
  }

  /** Cutting the block creates no `{{`: the character it leaves behind is a `}`. */
  lemma StripCreatesNoPlaceholder(t: string, b: Block)
    requires Free(t, "{{") && FindBlock(t) == Some(b)
    ensures Free(Strip(t, b), "{{")
  {
    StripKeepsOutside(t, b);
    FreeSlice(t, "{{", 0, b.start);
    FreeSlice(t, "{{", b.end + |Close|, |t|);
    assert t[..b.start] == t[0..b.start];
    assert t[b.end + |Close|..] == t[b.end + |Close|..|t|];
    FreeAroundBrace(t[..b.start], t[b.end + |Close|..]);
  }
}
