/**
 * State reconciliation and the render pipeline: on every document edit the
 * declarations are extracted again, and each parsed variable takes over the
 * current value of the first previously active variable with the same name.
 */
module Reconcile {
  import opened Options
  import opened Variables
  import opened Substitution

  /** `j` is the index of the first variable in `vars` called `name`. */
  predicate IsFirstWithName(vars: seq<Variable>, j: int, name: string) {
    0 <= j < |vars| && vars[j].name == name && forall k :: 0 <= k < j ==> vars[k].name != name
  }

  /** `vars.find(v => v.name === name)`, returned as the index of the match. */
  function FindByName(vars: seq<Variable>, name: string): (r: Option<nat>)
    ensures r.Some? ==> IsFirstWithName(vars, r.value, name)
    ensures r.None? <==> name !in Names(vars)
  {
    if vars == [] then None
    else if vars[0].name == name then Some(0)
    else match FindByName(vars[1..], name)
      case Some(j) => Some(j + 1)
      case None => None
  }

  /** One step of the merge loop: carry the prior current value over, or seed it from `value`. */
  function Carry(prev: seq<Variable>, v: Variable): Variable {
    match FindByName(prev, v.name)
    case Some(j) => v.(currentValue := prev[j].currentValue)
    case None => v.(currentValue := Some(v.value))
  }

  /**
   * The merge loop of `render`: the result is the freshly parsed list, same length and order,
   * with only `currentValue` set. A parsed variable whose name was active takes the
   * current value of the first active variable with that name; any other parsed variable
   * starts at its declared value. Active variables missing from the parsed list are dropped.
   */
  function Reconcile(prev: seq<Variable>, parsed: seq<Variable>): (r: seq<Variable>)
    ensures |r| == |parsed| && Names(r) == Names(parsed)
    ensures forall i :: 0 <= i < |r| ==> r[i].(currentValue := parsed[i].currentValue) == parsed[i]
    ensures forall i, j :: 0 <= i < |r| && IsFirstWithName(prev, j, parsed[i].name) ==>
              r[i].currentValue == prev[j].currentValue
    ensures forall i :: 0 <= i < |r| && parsed[i].name !in Names(prev) ==>
              r[i].currentValue == Some(parsed[i].value)
  {
    seq(|parsed|, i requires 0 <= i < |parsed| => Carry(prev, parsed[i]))
  }

  /** The names of a list are pairwise distinct. */
  predicate UniqueNames(vars: seq<Variable>) {
    forall i, j :: 0 <= i < j < |vars| ==> vars[i].name != vars[j].name
  }

  /** The first render of a document starts every variable at its declared value. */
  lemma FirstRenderSeedsDeclaredValues(parse: string -> Option<real>, elems: seq<Attrs>)
    ensures forall v :: v in Reconcile([], ParseVariables(parse, elems)) ==> v.currentValue == Some(v.value)
  {
    var parsed := ParseVariables(parse, elems);
    var r := Reconcile([], parsed);
    forall v | v in r
      ensures v.currentValue == Some(v.value)
    {
      var i :| 0 <= i < |r| && r[i] == v;
      assert parsed[i].name !in Names([]);
    }
  }

  /**
   * A value the user set on a control survives an edit of the document that still
   * declares the variable, whatever value the declaration now gives it.
   */
  lemma SetValueSurvivesEdit(state: seq<Variable>, k: nat, x: real, parsed: seq<Variable>, i: nat)
    requires k < |state| && IsFirstWithName(state, k, state[k].name)
    requires i < |parsed| && parsed[i].name == state[k].name
    ensures Reconcile(state[k := state[k].(currentValue := Some(x))], parsed)[i].currentValue == Some(x)
  {
    var edited := state[k := state[k].(currentValue := Some(x))];
    assert IsFirstWithName(edited, k, parsed[i].name);
  }

  /** With distinct names, reconciling a second time against the result changes nothing. */
  lemma ReconcileStable(prev: seq<Variable>, parsed: seq<Variable>)
    requires UniqueNames(parsed)
    ensures Reconcile(Reconcile(prev, parsed), parsed) == Reconcile(prev, parsed)
  {
    var r := Reconcile(prev, parsed);
    var r2 := Reconcile(r, parsed);
    forall i | 0 <= i < |parsed|
      ensures r2[i] == r[i]
    {
      assert IsFirstWithName(r, i, parsed[i].name);
    }
  }

  /**
   * With duplicate names, a second reconciliation gives every later duplicate the
   * current value of the first one: the first declaration wins.
   */
  lemma DuplicatesTakeFirstValue(prev: seq<Variable>, parsed: seq<Variable>, i: nat, j: nat)
    requires i < j < |parsed| && IsFirstWithName(parsed, i, parsed[j].name)
    ensures Reconcile(Reconcile(prev, parsed), parsed)[j].currentValue == Reconcile(prev, parsed)[i].currentValue
  {
    var r := Reconcile(prev, parsed);
    assert IsFirstWithName(r, i, parsed[j].name);
  }

  /** The outcome of a render: the new live state and the substituted document. */
  datatype Frame = Frame(state: seq<Variable>, output: string)

  /**
   * `render`: extract, reconcile with the live state, substitute. The live state's
   * names are the declared names, and if every active variable had a current value
   * then so does every variable afterwards.
   */
  function Render(prev: seq<Variable>, elems: seq<Attrs>, text: string,
                  parse: string -> Option<real>, show: real -> string): (f: Frame)
    ensures Names(f.state) == DeclaredNames(elems)
    ensures (forall v :: v in prev ==> v.currentValue.Some?) ==>
              forall v :: v in f.state ==> v.currentValue.Some?
    ensures f.state == Reconcile(prev, ParseVariables(parse, elems))
    ensures f.output == Substitute(text, f.state, show)
  {
    ParseVariablesNames(parse, elems);
    var state := Reconcile(prev, ParseVariables(parse, elems));
    Frame(state, Substitute(text, state, show))
  }

  /** The declaration `<variable name="w" value="150" min="20" max="300"/>`. */
  function WidthDeclaration(): Attrs {
    map["name" := "w", "value" := "150", "min" := "20", "max" := "300"]
  }

  /** Extracting the width declaration yields one variable `w` with declared value 150. */
  lemma WidthDeclarationParses(parse: string -> Option<real>)
    requires parse("150") == Some(150.0)
    ensures |ParseVariables(parse, [WidthDeclaration()])| == 1
    ensures ParseVariables(parse, [WidthDeclaration()])[0].name == "w"
    ensures ParseVariables(parse, [WidthDeclaration()])[0].value == 150.0
  {
    var e := WidthDeclaration();
    assert "name" in e && e["name"] == "w";
    assert "value" in e && e["value"] == "150";
    assert ParsedAttr(parse, e, "value") == Some(150.0);
    assert ParseVariables(parse, [e]) == [MakeVariable(parse, e)] + ParseVariables(parse, []);
  }

  /** A first render of `width="{w}"` with the width declaration substitutes the declared 150. */
  lemma {:induction false} RenderWidthExample(parse: string -> Option<real>, show: real -> string)
    requires parse("150") == Some(150.0)
    ensures Render([], [WidthDeclaration()], "width=\"{w}\"", parse, show).output
         == "width=\"" + show(150.0) + "\""
  {
    WidthDeclarationParses(parse);
    var vars := ParseVariables(parse, [WidthDeclaration()]);
    var state := Reconcile([], vars);
    assert vars[0].name !in Names([]);
    assert state[0].currentValue == Some(150.0);
    var rep := show(state[0].Resolved());
    assert rep == show(150.0);
    var text := "width=\"{w}\"";
    assert text == "width=\"" + Token("w") + "\"";
    ReplaceAllToken("width=\"", "\"", "w", rep);
    NoBraceNoToken("width=\"", Token("w"));
    ReplaceAllAbsent("width=\"", Token("w"), rep);
    ReplaceAllAbsent("\"", Token("w"), rep);
    assert Substitute(text, state, show) == Substitute(ReplaceAll(text, Token("w"), rep), state[1..], show);
    assert state[1..] == [];
  }

  /** A re-render keeps the current value 200 of `w` although the declaration still says 150. */
  lemma RenderKeepsCurrentExample(parse: string -> Option<real>, show: real -> string, active: Variable)
    requires parse("150") == Some(150.0)
    requires active.name == "w" && active.currentValue == Some(200.0)
    ensures Render([active], [WidthDeclaration()], "", parse, show).state[0].currentValue == Some(200.0)
  {
    WidthDeclarationParses(parse);
    var vars := ParseVariables(parse, [WidthDeclaration()]);
    assert IsFirstWithName([active], 0, vars[0].name);
  }
}
