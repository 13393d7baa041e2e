/**
 The data bag handed to `render` and the dotted-path lookup over it
 (`_getValueFromPath`), together with the JavaScript conversions the renderer
 applies to a looked-up value: `value || ''` followed by the implicit string
 conversion of a replacement value.
 */
module Values {
  import opened Wrappers
  import opened Strings

  /** A JSON-like value: a string, an object with string keys, or an array. */
  datatype Value = Str(s: string) | Obj(fields: map<string, Value>) | Arr(items: seq<Value>)

  /** `value[part]` when `value` is an object that has the key `part`, and `undefined` otherwise. */
  function Member(v: Option<Value>, part: string): Option<Value>
  {
    match v
    case Some(Obj(m)) => if part in m then Some(m[part]) else None
    case _ => None
  }

  /**
   The walk of `_getValueFromPath` over already split segments, one segment at
   a time from the left: the last segment is taken from what the earlier ones
   reached.
   */
  function Walk(v: Value, parts: seq<string>): Option<Value>
  {
    if parts == [] then Some(v) else Member(Walk(v, parts[..|parts| - 1]), parts[|parts| - 1])
  }

  /**
   The walk read from the other end: the first segment must name a key of an
   object, and the rest of the path is followed from that key's value.
   */
  lemma {:induction false} WalkFirstSegment(v: Value, part: string, rest: seq<string>)
    ensures Walk(v, [part] + rest) ==
      match v
      case Obj(m) => if part in m then Walk(m[part], rest) else None
      case _ => None
    decreases |rest|
  {
    var path := [part] + rest;
    if rest == [] {
      assert path[..|path| - 1] == [];
    } else {
      var init := rest[..|rest| - 1];
      assert path[..|path| - 1] == [part] + init;
      assert path[|path| - 1] == rest[|rest| - 1];
      WalkFirstSegment(v, part, init);
    }
  }

  /** Once a segment is missing, no longer path reaches a value: the walk returns `undefined` for good. */
  lemma {:induction false} WalkMissingIsFinal(v: Value, parts: seq<string>, more: seq<string>)
    requires Walk(v, parts) == None
    ensures Walk(v, parts + more) == None
    decreases |more|
  {
    if more == [] {
      assert parts + more == parts;
    } else {
      var init := more[..|more| - 1];
      assert (parts + more)[..|parts + more| - 1] == parts + init;
      WalkMissingIsFinal(v, parts, init);
    }
  }

  /** A walk that reaches a value passed through an object at every segment. */
  lemma {:induction false} WalkThroughObjects(v: Value, parts: seq<string>, k: nat)
    requires k < |parts| && Walk(v, parts).Some?
    ensures Walk(v, parts[..k]).Some? && Walk(v, parts[..k]).value.Obj?
    ensures parts[k] in Walk(v, parts[..k]).value.fields
    decreases |parts|
  {
    var init := parts[..|parts| - 1];
    if k < |parts| - 1 {
      assert init[..k] == parts[..k] && init[k] == parts[k];
      WalkThroughObjects(v, init, k);
    } else {
      assert init == parts[..k];
    }
  }

  /** `_getValueFromPath(data, path)`: split the path on `.` and walk it. */
  function Lookup(data: Value, path: string): (r: Option<Value>)
    ensures r.Some? ==> data.Obj?
  {
    WalkReachesThroughObject(data, Split(path, '.'));
    Walk(data, Split(path, '.'))
  }

  /** A path without a dot reads one key of the data. */
  lemma LookupOneSegment(data: Value, path: string)
    requires '.' !in path
    ensures Lookup(data, path) == Member(Some(data), path)
  {
    SplitWithoutSeparator(path, '.');
    assert [path][..0] == [];
    assert Walk(data, [path]) == Member(Walk(data, []), path);
  }

  /** A walk of at least one segment that reaches a value starts from an object. */
  lemma WalkReachesThroughObject(v: Value, parts: seq<string>)
    requires parts != []
    ensures Walk(v, parts).Some? ==> v.Obj?
  {
    if Walk(v, parts).Some? {
      WalkThroughObjects(v, parts, 0);
      assert parts[..0] == [];
    }
  }

  /**
   A path `first.rest` is looked up by reading the key `first` of the data
   and looking `rest` up in what it holds.
   */
  lemma LookupFirstSegment(data: Value, first: string, rest: string)
    requires '.' !in first
    ensures Lookup(data, first + "." + rest) ==
      match data
      case Obj(m) => if first in m then Lookup(m[first], rest) else None
      case _ => None
  {
    SplitAtFirstSeparator(first, '.', rest);
    WalkFirstSegment(data, first, Split(rest, '.'));
  }

  /**
   The string JavaScript makes of a value that is used as replacement text:
   an object prints as `[object Object]`, an array as its elements joined with
   commas.
   */
  function Display(v: Value): string
    decreases v, 1
  {
    match v
    case Str(s) => s
    case Obj(_) => "[object Object]"
    case Arr(items) => DisplayItems(v, 0)
  }

  /** The elements of the array `v` from index `i` on, displayed and joined with commas. */
  function DisplayItems(v: Value, i: nat): string
    requires v.Arr? && i <= |v.items|
    decreases v, 0, |v.items| - i
  {
    if i == |v.items| then []
    else if i == |v.items| - 1 then Display(v.items[i])
    else Display(v.items[i]) + "," + DisplayItems(v, i + 1)
  }

  /** Each element displayed, in order. */
  function Displays(xs: seq<Value>): (r: seq<string>)
    ensures |r| == |xs|
  {
    if xs == [] then [] else [Display(xs[0])] + Displays(xs[1..])
  }

  /** An array displays as its elements displayed and joined with commas. */
  lemma DisplayArray(xs: seq<Value>)
    ensures Display(Arr(xs)) == JoinWith(Displays(xs), ",")
  {
    DisplayItemsJoin(Arr(xs), 0);
    assert xs[0..] == xs;
  }

  lemma {:induction false} DisplayItemsJoin(v: Value, i: nat)
    requires v.Arr? && i <= |v.items|
    ensures DisplayItems(v, i) == JoinWith(Displays(v.items[i..]), ",")
    decreases |v.items| - i
  {
    var ds := Displays(v.items[i..]);
    if i < |v.items| {
      assert v.items[i..][1..] == v.items[i + 1..];
      assert ds[0] == Display(v.items[i]) && ds[1..] == Displays(v.items[i + 1..]);
      if i < |v.items| - 1 {
        DisplayItemsJoin(v, i + 1);
      }
    }
  }

  /** `value || ''` turned into text: `undefined` and the empty string give the empty string. */
  function ValueText(v: Option<Value>): string
  {
    match v
    case None => ""
    case Some(w) => Display(w)
  }

  /** JavaScript truthiness of a value: only the empty string is falsy. */
  predicate Truthy(v: Value)
  {
    !(v.Str? && v.s == [])
  }

  /** The replacement text is empty exactly when the value is `undefined` or falsy, for a string or an object. */
  lemma ValueTextEmpty(v: Option<Value>)
    requires v.None? || !v.value.Arr?
    ensures ValueText(v) == [] <==> v.None? || !Truthy(v.value)
  {
  }
}
