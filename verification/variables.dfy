/**
 * Declaration extraction: the `editsvg:variable` elements of a document become
 * variable records, one per element that has a non-empty `name`, in document order.
 *
 * The markup parser and the namespace lookup are not modelled: the input is the
 * sequence of attribute maps of the declaration elements, in document order.
 * The host's `parseFloat` is the parameter `parse`, where `None` stands for NaN.
 */
module Variables {
  import opened Options

  /** The attributes of one declaration element; a missing key is an absent attribute. */
  type Attrs = map<string, string>

  /** A variable record. `currentValue` is `None` until reconciliation seeds it. */
  datatype Variable = Variable(
    name: string,
    value: real,
    min: real,
    max: real,
    step: real,
    kind: string,
    attack: real,
    decay: real,
    labelText: string,
    currentValue: Option<real>)
  {
    /** The number a placeholder of this variable stands for: `currentValue`, else `value`. */
    function Resolved(): (r: real)
      ensures currentValue.Some? ==> r == currentValue.value
      ensures currentValue.None? ==> r == value
    {
      if currentValue.Some? then currentValue.value else value
    }
  }

  const DefaultValue: real := 0.0
  const DefaultMin: real := 0.0
  const DefaultMax: real := 100.0
  const DefaultStep: real := 1.0
  const DefaultKind: string := "slider"
  const DefaultAttack: real := 0.1
  const DefaultDecay: real := 0.5

  /** JavaScript truthiness of a parsed number: NaN and zero are falsy. */
  predicate Truthy(x: Option<real>) {
    x.Some? && x.value != 0.0
  }

  /** The attribute `key` as the host parser reads it; an absent attribute parses to NaN. */
  function ParsedAttr(parse: string -> Option<real>, attrs: Attrs, key: string): Option<real> {
    if key in attrs then parse(attrs[key]) else None
  }

  /**
   * `parseFloat(getAttribute(key)) || fallback`: the parsed number when it is truthy,
   * otherwise the fallback. A value that parses to zero therefore takes the fallback too.
   */
  function NumberAttr(parse: string -> Option<real>, attrs: Attrs, key: string, fallback: real): (r: real)
    ensures Truthy(ParsedAttr(parse, attrs, key)) ==> r == ParsedAttr(parse, attrs, key).value
    ensures !Truthy(ParsedAttr(parse, attrs, key)) ==> r == fallback
    ensures fallback != 0.0 ==> r != 0.0
  {
    var x := ParsedAttr(parse, attrs, key);
    if Truthy(x) then x.value else fallback
  }

  /** `getAttribute(key) || fallback`: an absent or empty attribute takes the fallback. */
  function TextAttr(attrs: Attrs, key: string, fallback: string): (r: string)
    ensures key in attrs && attrs[key] != "" ==> r == attrs[key]
    ensures key !in attrs || attrs[key] == "" ==> r == fallback
    ensures fallback != "" ==> r != ""
  {
    if key in attrs && attrs[key] != "" then attrs[key] else fallback
  }

  /** The declaration element has a `name` attribute that is not empty. */
  predicate IsNamed(attrs: Attrs) {
    "name" in attrs && attrs["name"] != ""
  }

  /** The record built from one named declaration element, before reconciliation. */
  function MakeVariable(parse: string -> Option<real>, attrs: Attrs): (v: Variable)
    requires IsNamed(attrs)
    ensures v.name == attrs["name"] && v.currentValue.None?
    ensures v.value == NumberAttr(parse, attrs, "value", DefaultValue)
    ensures v.min == NumberAttr(parse, attrs, "min", DefaultMin)
    ensures v.max == NumberAttr(parse, attrs, "max", DefaultMax)
    ensures v.step == NumberAttr(parse, attrs, "step", DefaultStep)
    ensures v.attack == NumberAttr(parse, attrs, "attack", DefaultAttack)
    ensures v.decay == NumberAttr(parse, attrs, "decay", DefaultDecay)
    ensures v.kind == TextAttr(attrs, "type", DefaultKind)
    ensures v.labelText == TextAttr(attrs, "label", attrs["name"])
    ensures v.max != 0.0 && v.step != 0.0 && v.attack != 0.0 && v.decay != 0.0
    ensures v.kind != "" && v.labelText != ""
  {
    var name := attrs["name"];
    Variable(
      name,
      NumberAttr(parse, attrs, "value", DefaultValue),
      NumberAttr(parse, attrs, "min", DefaultMin),
      NumberAttr(parse, attrs, "max", DefaultMax),
      NumberAttr(parse, attrs, "step", DefaultStep),
      TextAttr(attrs, "type", DefaultKind),
      NumberAttr(parse, attrs, "attack", DefaultAttack),
      NumberAttr(parse, attrs, "decay", DefaultDecay),
      TextAttr(attrs, "label", name),
      None)
  }

  /** The number of declaration elements that carry a non-empty name. */
  function NamedCount(elems: seq<Attrs>): (n: nat)
    ensures n <= |elems|
  {
    if elems == [] then 0
    else (if IsNamed(elems[0]) then 1 else 0) + NamedCount(elems[1..])
  }

  /** The non-empty `name` attributes of the declarations, in document order, duplicates kept. */
  function DeclaredNames(elems: seq<Attrs>): (names: seq<string>)
    ensures |names| == NamedCount(elems)
    ensures forall n :: n in names ==> n != ""
  {
    if elems == [] then []
    else (if IsNamed(elems[0]) then [elems[0]["name"]] else []) + DeclaredNames(elems[1..])
  }

  /** The names of a list of variables, in list order. */
  function Names(vars: seq<Variable>): (names: seq<string>)
    ensures |names| == |vars|
    ensures forall i :: 0 <= i < |vars| ==> names[i] == vars[i].name
  {
    seq(|vars|, i requires 0 <= i < |vars| => vars[i].name)
  }

  /**
   * `parseVariables`: one record per named declaration, in document order.
   * Nameless declarations are skipped and duplicate names are all kept.
   */
  function ParseVariables(parse: string -> Option<real>, elems: seq<Attrs>): (vars: seq<Variable>)
    ensures |vars| == NamedCount(elems)
    ensures forall v :: v in vars ==> v.name != "" && v.currentValue.None?
    ensures forall v :: v in vars ==> v.max != 0.0 && v.step != 0.0 && v.attack != 0.0 && v.decay != 0.0
  {
    if elems == [] then []
    else if IsNamed(elems[0]) then [MakeVariable(parse, elems[0])] + ParseVariables(parse, elems[1..])
    else ParseVariables(parse, elems[1..])
  }

  /** Extraction distributes over concatenation of documents' declaration lists. */
  lemma {:induction false} ParseVariablesAppend(parse: string -> Option<real>, a: seq<Attrs>, b: seq<Attrs>)
    ensures ParseVariables(parse, a + b) == ParseVariables(parse, a) + ParseVariables(parse, b)
    ensures NamedCount(a + b) == NamedCount(a) + NamedCount(b)
    decreases |a|
  {
    if a == [] {
      assert a + b == b;
    } else {
      assert (a + b)[0] == a[0];
      assert (a + b)[1..] == a[1..] + b;
      ParseVariablesAppend(parse, a[1..], b);
    }
  }

  /**
   * Every named declaration lands in the result, as its own record, at the position
   * given by the number of named declarations before it: document order is kept.
   */
  lemma ParseVariablesPosition(parse: string -> Option<real>, elems: seq<Attrs>, i: nat)
    requires i < |elems| && IsNamed(elems[i])
    ensures NamedCount(elems[..i]) < |ParseVariables(parse, elems)|
    ensures ParseVariables(parse, elems)[NamedCount(elems[..i])] == MakeVariable(parse, elems[i])
  {
    assert elems == elems[..i] + ([elems[i]] + elems[i + 1..]);
    ParseVariablesAppend(parse, elems[..i], [elems[i]] + elems[i + 1..]);
    assert ([elems[i]] + elems[i + 1..])[1..] == elems[i + 1..];
  }

  /** The records' names are exactly the declared non-empty names, in order. */
  lemma {:induction false} ParseVariablesNames(parse: string -> Option<real>, elems: seq<Attrs>)
    ensures Names(ParseVariables(parse, elems)) == DeclaredNames(elems)
    decreases |elems|
  {
    if elems != [] {
      ParseVariablesNames(parse, elems[1..]);
    }
  }

  /** A declaration whose `max` parses to zero gets the default maximum, 100. */
  lemma ZeroMaxTakesDefault(parse: string -> Option<real>, attrs: Attrs)
    requires IsNamed(attrs) && "max" in attrs && parse(attrs["max"]) == Some(0.0)
    ensures MakeVariable(parse, attrs).max == DefaultMax
  {
  }
}
