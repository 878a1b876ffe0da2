/**
 * BooleanClassifier (boolean_classifier.cpp): a compiler from expressions
 * such as `FN_A == 1 && ! FN_B > 0.5 || FN_C <= 2` into a list of atoms
 * tagged with the id of their `&&` group, and an evaluator that walks that
 * list with group skipping and short-circuit return.
 */
module BooleanClassifier {
  import opened Utils

  // ---------------------------------------------------------------------
  // Comparers
  // ---------------------------------------------------------------------

  /** The operator spellings, indexed by comparer id. */
  const Ops: seq<string> := ["==", "!=", "<", "<=", ">", ">="]

  /** The six comparers, by id: equal, not equal, less, less or equal, greater, greater or equal. */
  function Compare(op: int, left: real, right: real): bool
    requires 0 <= op < 6
  {
    match op
    case 0 => left == right
    case 1 => left != right
    case 2 => left < right
    case 3 => left <= right
    case 4 => left > right
    case _ => left >= right
  }

  /** The comparer that always gives the opposite answer. */
  function Negated(op: int): (r: int)
    requires 0 <= op < 6
    ensures 0 <= r < 6
    ensures forall left: real, right: real :: Compare(r, left, right) == !Compare(op, left, right)
  {
    match op
    case 0 => 1
    case 1 => 0
    case 2 => 5
    case 3 => 4
    case 4 => 3
    case _ => 2
  }

  // ---------------------------------------------------------------------
  // Compiled form
  // ---------------------------------------------------------------------

  /** One comparison `[!] feature op value`, in `&&` group `group`. */
  datatype Atom = Atom(featureId: int, featureName: string, withNot: bool, op: int, value: real, group: int)

  datatype Compiled = Compiled(atoms: seq<Atom>, ok: bool)

  /**
   * The compiler as a function of the tokens still to read and of its state:
   * whether an `&&`/`||` is expected, the current group id and whether a `!`
   * is pending. On an error it keeps the atoms built so far, as the source does.
   */
  function CompileFrom(rest: seq<string>, names: seq<string>, parse: string -> real,
                       needsOp: bool, group: int, neg: bool): (r: Compiled)
    decreases |rest|
  {
    if rest == [] then Compiled([], needsOp)
    else if needsOp then
      if rest[0] == "&&" then CompileFrom(rest[1..], names, parse, false, group, neg)
      else if rest[0] == "||" then CompileFrom(rest[1..], names, parse, false, group + 1, neg)
      else Compiled([], false)
    else if rest[0] == "!" then
      if neg then Compiled([], false) else CompileFrom(rest[1..], names, parse, false, group, true)
    else
      var id := IndexOf(rest[0], names);
      if id < 0 || |rest| < 3 then Compiled([], false)
      else
        var op := IndexOf(rest[1], Ops);
        if op < 0 then Compiled([], false)
        else
          var tail := CompileFrom(rest[3..], names, parse, true, group, false);
          Compiled([Atom(id, names[id], neg, op, parse(rest[2]), group)] + tail.atoms, tail.ok)
  }

  /** One step of the compiler, at index `i` of the token list. */
  lemma CompileStep(items: seq<string>, i: nat, names: seq<string>, parse: string -> real,
                    needsOp: bool, group: int, neg: bool)
    requires i < |items|
    ensures needsOp && items[i] == "&&" ==>
      CompileFrom(items[i..], names, parse, needsOp, group, neg) == CompileFrom(items[i + 1..], names, parse, false, group, neg)
    ensures needsOp && items[i] == "||" ==>
      CompileFrom(items[i..], names, parse, needsOp, group, neg) == CompileFrom(items[i + 1..], names, parse, false, group + 1, neg)
    ensures !needsOp && items[i] == "!" && !neg ==>
      CompileFrom(items[i..], names, parse, needsOp, group, neg) == CompileFrom(items[i + 1..], names, parse, false, group, true)
    ensures (needsOp && items[i] != "&&" && items[i] != "||") ||
            (!needsOp && items[i] == "!" && neg) ||
            (!needsOp && items[i] != "!" && (IndexOf(items[i], names) < 0 || i + 2 >= |items| || IndexOf(items[i + 1], Ops) < 0)) ==>
      CompileFrom(items[i..], names, parse, needsOp, group, neg) == Compiled([], false)
  {
    var rest := items[i..];
    assert rest[0] == items[i] && rest[1..] == items[i + 1..];
    if i + 2 < |items| {
      assert rest[1] == items[i + 1] && rest[2] == items[i + 2] && rest[3..] == items[i + 3..];
    }
  }

  /** What init compiles from an expression text. */
  function CompileText(expr: string, names: seq<string>, parse: string -> real): Compiled {
    Compile(Tokens(expr, " "), names, parse)
  }

  /** The compiler's state after reading one atom at index `i`. */
  lemma AtomStep(items: seq<string>, i: nat, names: seq<string>, parse: string -> real,
                 group: int, neg: bool, done: seq<Atom>, atom: Atom)
    requires i + 2 < |items| && items[i] != "!"
    requires IndexOf(items[i], names) >= 0 && IndexOf(items[i + 1], Ops) >= 0
    requires atom == Atom(IndexOf(items[i], names), names[IndexOf(items[i], names)], neg,
                          IndexOf(items[i + 1], Ops), parse(items[i + 2]), group)
    ensures var c := CompileFrom(items[i..], names, parse, false, group, neg);
      var d := CompileFrom(items[i + 3..], names, parse, true, group, false);
      Compiled(done + c.atoms, c.ok) == Compiled((done + [atom]) + d.atoms, d.ok)
  {
    CompileStep(items, i, names, parse, false, group, neg);
    var d := CompileFrom(items[i + 3..], names, parse, true, group, false);
    assert done + ([atom] + d.atoms) == (done + [atom]) + d.atoms;
  }

  /** What init compiles from the space-separated tokens of an expression. */
  function Compile(items: seq<string>, names: seq<string>, parse: string -> real): Compiled {
    CompileFrom(items, names, parse, false, 0, false)
  }

  /** Group ids start at 0 and each atom's id is its predecessor's or one more. */
  predicate WellGrouped(atoms: seq<Atom>) {
    (|atoms| > 0 ==> atoms[0].group == 0) &&
    forall j :: 0 < j < |atoms| ==> atoms[j].group == atoms[j - 1].group || atoms[j].group == atoms[j - 1].group + 1
  }

  /** Each atom names an entry of the feature table and a valid comparer. */
  predicate WellFormed(atoms: seq<Atom>, names: seq<string>) {
    forall j :: 0 <= j < |atoms| ==>
      0 <= atoms[j].featureId < |names| && atoms[j].featureName == names[atoms[j].featureId] &&
      0 <= atoms[j].op < 6
  }

  /** Compiled atoms start in the current group (or, after an atom, its successor) and step by at most one. */
  lemma {:induction false} CompileFromShape(rest: seq<string>, names: seq<string>, parse: string -> real,
                                            needsOp: bool, group: int, neg: bool)
    ensures var a := CompileFrom(rest, names, parse, needsOp, group, neg).atoms;
      WellFormed(a, names) &&
      (|a| > 0 ==> a[0].group == group || (needsOp && a[0].group == group + 1)) &&
      forall j :: 0 < j < |a| ==> a[j].group == a[j - 1].group || a[j].group == a[j - 1].group + 1
    decreases |rest|
  {
    if rest != [] {
      if needsOp {
        if rest[0] == "&&" {
          CompileFromShape(rest[1..], names, parse, false, group, neg);
        } else if rest[0] == "||" {
          CompileFromShape(rest[1..], names, parse, false, group + 1, neg);
        }
      } else if rest[0] == "!" {
        if !neg {
          CompileFromShape(rest[1..], names, parse, false, group, true);
        }
      } else if |rest| >= 3 {
        CompileFromShape(rest[3..], names, parse, true, group, false);
      }
    }
  }

  /** Everything init compiles, even on failure, is well grouped and well formed. */
  lemma CompileWellGrouped(items: seq<string>, names: seq<string>, parse: string -> real)
    ensures WellGrouped(Compile(items, names, parse).atoms)
    ensures WellFormed(Compile(items, names, parse).atoms, names)
  {
    CompileFromShape(items, names, parse, false, 0, false);
  }

  // ---------------------------------------------------------------------
  // Rendering expressions, and compiling them back
  // ---------------------------------------------------------------------

  /** One literal of a written expression; `orBefore` says whether `||` (or else `&&`) precedes it. */
  datatype Lit = Lit(orBefore: bool, negated: bool, name: string, op: OpId, value: string)

  /** A comparer id. */
  type OpId = x: int | 0 <= x < 6

  /** A literal the compiler accepts: its name is a feature name other than `!` and its operator exists. */
  predicate Usable(l: Lit, names: seq<string>) {
    IndexOf(l.name, names) >= 0 && l.name != "!"
  }

  function Connective(l: Lit): string {
    if l.orBefore then "||" else "&&"
  }

  /** The tokens of one literal, followed by `r`. */
  function RenderLit(l: Lit, r: seq<string>): seq<string> {
    var body := [l.name] + ([Ops[l.op]] + ([l.value] + r));
    if l.negated then ["!"] + body else body
  }

  /** The literals after the first, each preceded by its connective, followed by `r`. */
  function RenderAfter(lits: seq<Lit>, r: seq<string>): seq<string> {
    if lits == [] then r
    else [Connective(lits[0])] + RenderLit(lits[0], RenderAfter(lits[1..], r))
  }

  /** The token list of an expression, followed by `r`. */
  function RenderThen(lits: seq<Lit>, r: seq<string>): seq<string>
    requires |lits| > 0
  {
    RenderLit(lits[0], RenderAfter(lits[1..], r))
  }

  /** The token list of an expression. */
  function Render(lits: seq<Lit>): seq<string>
    requires |lits| > 0
  {
    RenderThen(lits, [])
  }

  lemma RenderLitAppend(l: Lit, r: seq<string>, t: seq<string>)
    ensures RenderLit(l, r) + t == RenderLit(l, r + t)
  {
    var x := [l.value] + r;
    assert x + t == [l.value] + (r + t);
    var y := [Ops[l.op]] + x;
    assert y + t == [Ops[l.op]] + (x + t);
    var z := [l.name] + y;
    assert z + t == [l.name] + (y + t);
    assert (["!"] + z) + t == ["!"] + (z + t);
  }

  lemma {:induction false} RenderAfterAppend(lits: seq<Lit>, r: seq<string>, t: seq<string>)
    ensures RenderAfter(lits, r) + t == RenderAfter(lits, r + t)
    decreases |lits|
  {
    if lits != [] {
      var inner := RenderAfter(lits[1..], r);
      RenderAfterAppend(lits[1..], r, t);
      RenderLitAppend(lits[0], inner, t);
      assert ([Connective(lits[0])] + RenderLit(lits[0], inner)) + t == [Connective(lits[0])] + (RenderLit(lits[0], inner) + t);
    }
  }

  /** Writing an expression and then more tokens is writing the expression followed by them. */
  lemma RenderThenAppend(lits: seq<Lit>, t: seq<string>)
    requires |lits| > 0
    ensures Render(lits) + t == RenderThen(lits, t)
  {
    RenderAfterAppend(lits[1..], [], t);
    RenderLitAppend(lits[0], RenderAfter(lits[1..], []), t);
    assert [] + t == t;
  }

  function LitAtom(l: Lit, names: seq<string>, parse: string -> real, group: int): Atom
    requires Usable(l, names)
  {
    var id := IndexOf(l.name, names);
    Atom(id, names[id], l.negated, l.op, parse(l.value), group)
  }

  /** The atoms of the literals after the first, whose predecessor sits in `group`. */
  function AtomsAfter(lits: seq<Lit>, names: seq<string>, parse: string -> real, group: int): seq<Atom>
    requires forall k :: 0 <= k < |lits| ==> Usable(lits[k], names)
  {
    if lits == [] then []
    else
      var g := if lits[0].orBefore then group + 1 else group;
      [LitAtom(lits[0], names, parse, g)] + AtomsAfter(lits[1..], names, parse, g)
  }

  function AtomsOf(lits: seq<Lit>, names: seq<string>, parse: string -> real): seq<Atom>
    requires |lits| > 0 && forall k :: 0 <= k < |lits| ==> Usable(lits[k], names)
  {
    [LitAtom(lits[0], names, parse, 0)] + AtomsAfter(lits[1..], names, parse, 0)
  }

  /** Each comparer's spelling is found at its own index. */
  lemma OpIndex(op: OpId)
    ensures IndexOf(Ops[op], Ops) == op
  {
    if op == 0 {
      assert Ops[0] == "==";
    } else if op == 1 {
      assert Ops[1] == "!=" && Ops[0] != "!=";
    } else if op == 2 {
      assert Ops[2] == "<" && Ops[0] != "<" && Ops[1] != "<";
    } else if op == 3 {
      assert Ops[3] == "<=" && Ops[0] != "<=" && Ops[1] != "<=" && Ops[2] != "<=";
    } else if op == 4 {
      assert Ops[4] == ">" && Ops[0] != ">" && Ops[1] != ">" && Ops[2] != ">" && Ops[3] != ">";
    } else {
      assert Ops[5] == ">=" && Ops[0] != ">=" && Ops[1] != ">=" && Ops[2] != ">=" && Ops[3] != ">=" && Ops[4] != ">=";
    }
  }

  /** `name op value` compiles to one atom followed by what the rest compiles to. */
  lemma CompileAtom(name: string, op: OpId, value: string, rest: seq<string>, names: seq<string>,
                    parse: string -> real, group: int, neg: bool)
    requires IndexOf(name, names) >= 0 && name != "!"
    ensures CompileFrom([name] + ([Ops[op]] + ([value] + rest)), names, parse, false, group, neg) ==
      var id := IndexOf(name, names);
      var tail := CompileFrom(rest, names, parse, true, group, false);
      Compiled([Atom(id, names[id], neg, op, parse(value), group)] + tail.atoms, tail.ok)
  {
    var body := [name] + ([Ops[op]] + ([value] + rest));
    OpIndex(op);
    assert body[0] == name && body[1] == Ops[op] && body[2] == value;
    assert body[3..] == rest;
  }

  /** A `!` with none pending sets the pending flag. */
  lemma CompileNot(rest: seq<string>, names: seq<string>, parse: string -> real, group: int)
    ensures CompileFrom(["!"] + rest, names, parse, false, group, false) ==
      CompileFrom(rest, names, parse, false, group, true)
  {
    assert (["!"] + rest)[0] == "!";
    assert (["!"] + rest)[1..] == rest;
  }

  lemma CompileLit(l: Lit, rest: seq<string>, names: seq<string>, parse: string -> real, group: int)
    requires Usable(l, names)
    ensures CompileFrom(RenderLit(l, rest), names, parse, false, group, false) ==
      var tail := CompileFrom(rest, names, parse, true, group, false);
      Compiled([LitAtom(l, names, parse, group)] + tail.atoms, tail.ok)
  {
    var body := [l.name] + ([Ops[l.op]] + ([l.value] + rest));
    CompileAtom(l.name, l.op, l.value, rest, names, parse, group, l.negated);
    if l.negated {
      CompileNot(body, names, parse, group);
    }
  }

  /** The group id of the last literal, when the one before the list is in `group`. */
  function EndGroup(lits: seq<Lit>, group: int): int {
    if lits == [] then group
    else EndGroup(lits[1..], if lits[0].orBefore then group + 1 else group)
  }

  lemma CompileConnective(conn: string, rest: seq<string>, names: seq<string>, parse: string -> real, group: int)
    requires conn == "&&" || conn == "||"
    ensures CompileFrom([conn] + rest, names, parse, true, group, false) ==
      CompileFrom(rest, names, parse, false, if conn == "||" then group + 1 else group, false)
  {
    assert ([conn] + rest)[0] == conn;
    assert ([conn] + rest)[1..] == rest;
  }

  lemma {:induction false} CompileAfter(lits: seq<Lit>, rest: seq<string>, names: seq<string>, parse: string -> real, group: int)
    requires forall k :: 0 <= k < |lits| ==> Usable(lits[k], names)
    ensures CompileFrom(RenderAfter(lits, rest), names, parse, true, group, false) ==
      var tail := CompileFrom(rest, names, parse, true, EndGroup(lits, group), false);
      Compiled(AtomsAfter(lits, names, parse, group) + tail.atoms, tail.ok)
    decreases |lits|
  {
    if lits != [] {
      var l := lits[0];
      var g := if l.orBefore then group + 1 else group;
      var more := RenderAfter(lits[1..], rest);
      CompileConnective(Connective(l), RenderLit(l, more), names, parse, group);
      CompileLit(l, more, names, parse, g);
      CompileAfter(lits[1..], rest, names, parse, g);
      var a := LitAtom(l, names, parse, g);
      var t := CompileFrom(rest, names, parse, true, EndGroup(lits[1..], g), false);
      var after := AtomsAfter(lits[1..], names, parse, g);
      Assoc([a], after, t.atoms);
    }
  }

  /** Compiling the tokens of an expression of usable literals, followed by `rest`, yields its atoms and then what `rest` compiles to. */
  lemma CompileThen(lits: seq<Lit>, rest: seq<string>, names: seq<string>, parse: string -> real)
    requires |lits| > 0 && forall k :: 0 <= k < |lits| ==> Usable(lits[k], names)
    ensures Compile(RenderThen(lits, rest), names, parse) ==
      var tail := CompileFrom(rest, names, parse, true, EndGroup(lits[1..], 0), false);
      Compiled(AtomsOf(lits, names, parse) + tail.atoms, tail.ok)
  {
    CompileLit(lits[0], RenderAfter(lits[1..], rest), names, parse, 0);
    CompileAfter(lits[1..], rest, names, parse, 0);
    var a := LitAtom(lits[0], names, parse, 0);
    var after := AtomsAfter(lits[1..], names, parse, 0);
    var t := CompileFrom(rest, names, parse, true, EndGroup(lits[1..], 0), false);
    Assoc([a], after, t.atoms);
  }

  /** Compiling the tokens of any expression of usable literals succeeds with exactly its atoms. */
  lemma CompileRender(lits: seq<Lit>, names: seq<string>, parse: string -> real)
    requires |lits| > 0 && forall k :: 0 <= k < |lits| ==> Usable(lits[k], names)
    ensures Compile(Render(lits), names, parse) == Compiled(AtomsOf(lits, names, parse), true)
  {
    CompileThen(lits, [], names, parse);
    var atoms := AtomsOf(lits, names, parse);
    assert atoms + [] == atoms;
  }

  /** A token the space splitter keeps whole. */
  predicate Word(s: string) {
    s != [] && forall j :: 0 <= j < |s| ==> s[j] != ' '
  }

  /**
   * The round trip through the expression text: writing the literals with
   * single spaces and compiling the result as init does gives their atoms.
   */
  lemma InitRoundTrip(lits: seq<Lit>, names: seq<string>, parse: string -> real)
    requires |lits| > 0 && forall k :: 0 <= k < |lits| ==> Usable(lits[k], names)
    requires forall k :: 0 <= k < |lits| ==> Word(lits[k].name) && Word(lits[k].value)
    ensures Compile(Tokens(Join(Render(lits), ' '), " "), names, parse) == Compiled(AtomsOf(lits, names, parse), true)
  {
    RenderWords(lits);
    SplitJoin(Render(lits), ' ', " ");
    CompileRender(lits, names, parse);
  }

  lemma RenderWords(lits: seq<Lit>)
    requires |lits| > 0
    requires forall k :: 0 <= k < |lits| ==> Word(lits[k].name) && Word(lits[k].value)
    ensures forall i :: 0 <= i < |Render(lits)| ==> Word(Render(lits)[i])
  {
    AfterWords(lits[1..], []);
    LitWords(lits[0], RenderAfter(lits[1..], []));
  }

  lemma LitWords(l: Lit, r: seq<string>)
    requires Word(l.name) && Word(l.value)
    requires forall i :: 0 <= i < |r| ==> Word(r[i])
    ensures forall i :: 0 <= i < |RenderLit(l, r)| ==> Word(RenderLit(l, r)[i])
  {
    assert Word(Ops[l.op]);
    var x := [l.value] + r;
    var y := [Ops[l.op]] + x;
    var z := [l.name] + y;
    assert forall i :: 0 <= i < |x| ==> Word(x[i]);
    assert forall i :: 0 <= i < |y| ==> Word(y[i]);
    assert forall i :: 0 <= i < |z| ==> Word(z[i]);
  }

  lemma {:induction false} AfterWords(lits: seq<Lit>, r: seq<string>)
    requires forall k :: 0 <= k < |lits| ==> Word(lits[k].name) && Word(lits[k].value)
    requires forall i :: 0 <= i < |r| ==> Word(r[i])
    ensures forall i :: 0 <= i < |RenderAfter(lits, r)| ==> Word(RenderAfter(lits, r)[i])
    decreases |lits|
  {
    if lits != [] {
      AfterWords(lits[1..], r);
      LitWords(lits[0], RenderAfter(lits[1..], r));
    }
  }

  // ---------------------------------------------------------------------
  // Rejections
  // ---------------------------------------------------------------------

  /** Where an operator is expected, any token but `&&` and `||` is an error. */
  lemma RejectsMissingConnective(rest: seq<string>, names: seq<string>, parse: string -> real, group: int, neg: bool)
    requires rest != [] && rest[0] != "&&" && rest[0] != "||"
    ensures !CompileFrom(rest, names, parse, true, group, neg).ok
  {
  }

  /**
   * A complete expression has an atom where one is expected: an empty
   * expression, one that stops after a connective or a `!`, two `!` in a
   * row, an unknown name, a name without two following tokens, and an
   * unknown operator are all errors.
   */
  lemma {:induction false} RejectsBadAtom(rest: seq<string>, names: seq<string>, parse: string -> real, group: int, neg: bool)
    requires rest == [] ||
      (rest[0] == "!" && neg) ||
      (rest[0] != "!" && IndexOf(rest[0], names) < 0) ||
      (rest[0] != "!" && |rest| < 3) ||
      (rest[0] != "!" && |rest| >= 3 && IndexOf(rest[1], Ops) < 0)
    ensures !CompileFrom(rest, names, parse, false, group, neg).ok
  {
  }

  /**
   * An expression that stops after a connective, or after a connective and
   * a `!`, is rejected, keeping the atoms compiled before it.
   */
  lemma RejectsTrailer(lits: seq<Lit>, trailer: seq<string>, names: seq<string>, parse: string -> real)
    requires |lits| > 0 && forall k :: 0 <= k < |lits| ==> Usable(lits[k], names)
    requires trailer == ["&&"] || trailer == ["||"] || trailer == ["&&", "!"] || trailer == ["||", "!"]
    ensures Compile(Render(lits) + trailer, names, parse) == Compiled(AtomsOf(lits, names, parse), false)
  {
    RenderThenAppend(lits, trailer);
    CompileThen(lits, trailer, names, parse);
    var g := EndGroup(lits[1..], 0);
    var g' := if trailer[0] == "||" then g + 1 else g;
    assert trailer[1..] == [] || trailer[1..] == ["!"];
    assert CompileFrom(trailer, names, parse, true, g, false) == CompileFrom(trailer[1..], names, parse, false, g', false);
    if trailer[1..] == ["!"] {
      assert ["!"][1..] == [];
    }
    assert CompileFrom(trailer, names, parse, true, g, false) == Compiled([], false);
    var atoms := AtomsOf(lits, names, parse);
    assert atoms + [] == atoms;
  }

  // ---------------------------------------------------------------------
  // Evaluation
  // ---------------------------------------------------------------------

  /** Outcome of classify: a value, or an assertion failure (missing feature or bad comparer). */
  datatype Verdict = Fault | Value(b: bool)

  /** An atom holds: its feature is present and the comparison, negated when marked, is true. */
  predicate AtomTrue(a: Atom, features: map<int, real>) {
    a.featureId in features && 0 <= a.op < 6 &&
    Compare(a.op, features[a.featureId], a.value) != a.withNot
  }

  /** Every atom of group `g` holds. */
  predicate GroupTrue(atoms: seq<Atom>, features: map<int, real>, g: int) {
    forall j :: 0 <= j < |atoms| && atoms[j].group == g ==> AtomTrue(atoms[j], features)
  }

  /** The disjunction over the groups of the conjunction of their atoms. */
  predicate OrOfAnds(atoms: seq<Atom>, features: map<int, real>) {
    exists i :: 0 <= i < |atoms| && GroupTrue(atoms, features, atoms[i].group)
  }

  /**
   * The evaluator loop as a function of its position and of its state, the
   * current group id and the running result. The lookup and the comparer
   * check come first, for skipped atoms too.
   */
  function RunFrom(atoms: seq<Atom>, features: map<int, real>, i: nat, cur: int, res: bool): Verdict
    decreases |atoms| - i
  {
    if i >= |atoms| then Value(res)
    else
      var a := atoms[i];
      if a.featureId !in features || !(0 <= a.op < 6) then Fault
      else if res && a.group > cur then Value(true)
      else if a.group < cur then RunFrom(atoms, features, i + 1, cur, res)
      else
        var r := Compare(a.op, features[a.featureId], a.value) != a.withNot;
        RunFrom(atoms, features, i + 1, if r then cur else cur + 1, r)
  }

  function Run(atoms: seq<Atom>, features: map<int, real>): Verdict {
    RunFrom(atoms, features, 0, 0, false)
  }

  lemma {:induction false} Monotone(atoms: seq<Atom>, j: nat, k: nat)
    requires WellGrouped(atoms) && j <= k < |atoms|
    ensures atoms[j].group <= atoms[k].group
    decreases k - j
  {
    if j < k {
      Monotone(atoms, j, k - 1);
    }
  }

  /** The state of the evaluator loop before atom `i`, in terms of the groups already decided. */
  predicate LoopState(atoms: seq<Atom>, features: map<int, real>, i: nat, cur: int, res: bool)
    requires i <= |atoms|
  {
    (i == 0 ==> cur == 0 && !res) &&
    (i > 0 ==> cur == atoms[i - 1].group + (if res then 0 else 1)) &&
    (forall j :: 0 <= j < i && atoms[j].group < cur ==> !GroupTrue(atoms, features, atoms[j].group)) &&
    (res ==> forall j :: 0 <= j < i && atoms[j].group == cur ==> AtomTrue(atoms[j], features))
  }

  lemma {:induction false} RunFromOrOfAnds(atoms: seq<Atom>, features: map<int, real>, i: nat, cur: int, res: bool)
    requires WellGrouped(atoms) && i <= |atoms| && LoopState(atoms, features, i, cur, res)
    requires RunFrom(atoms, features, i, cur, res) != Fault
    ensures RunFrom(atoms, features, i, cur, res) == Value(OrOfAnds(atoms, features))
    decreases |atoms| - i
  {
    if i == |atoms| {
      if res {
        assert GroupTrue(atoms, features, atoms[i - 1].group) by {
          forall j | 0 <= j < |atoms| && atoms[j].group == atoms[i - 1].group
            ensures AtomTrue(atoms[j], features)
          {
          }
        }
      } else if i > 0 {
        forall k | 0 <= k < |atoms|
          ensures !GroupTrue(atoms, features, atoms[k].group)
        {
          Monotone(atoms, k, i - 1);
        }
      }
    } else {
      var a := atoms[i];
      if res && a.group > cur {
        assert GroupTrue(atoms, features, atoms[i - 1].group) by {
          forall j | 0 <= j < |atoms| && atoms[j].group == cur
            ensures AtomTrue(atoms[j], features)
          {
            if j >= i {
              Monotone(atoms, i, j);
            }
          }
        }
      } else if a.group < cur {
        if i > 0 {
          Monotone(atoms, i - 1, i);
        }
        assert !res && a.group == atoms[i - 1].group;
        RunFromOrOfAnds(atoms, features, i + 1, cur, res);
      } else {
        var r := Compare(a.op, features[a.featureId], a.value) != a.withNot;
        assert a.group == cur;
        var cur' := if r then cur else cur + 1;
        assert r == AtomTrue(a, features);
        forall j | 0 <= j < i + 1 && atoms[j].group < cur'
          ensures !GroupTrue(atoms, features, atoms[j].group)
        {
          if atoms[j].group >= cur {
            assert !AtomTrue(a, features);
          }
        }
        if r {
          forall j | 0 <= j < i + 1 && atoms[j].group == cur'
            ensures AtomTrue(atoms[j], features)
          {
            if j < i && !res {
              Monotone(atoms, j, i - 1);
            }
          }
        }
        assert LoopState(atoms, features, i + 1, cur', r);
        RunFromOrOfAnds(atoms, features, i + 1, cur', r);
      }
    }
  }

  /** The key law: on a well-grouped list, classify computes an OR of ANDs. */
  lemma ClassifyIsOrOfAnds(atoms: seq<Atom>, features: map<int, real>)
    requires WellGrouped(atoms) && Run(atoms, features) != Fault
    ensures Run(atoms, features) == Value(OrOfAnds(atoms, features))
  {
    RunFromOrOfAnds(atoms, features, 0, 0, false);
  }

  /** Classify does not fail when every atom's feature is present and its comparer exists. */
  lemma {:induction false} RunFromDefined(atoms: seq<Atom>, features: map<int, real>, i: nat, cur: int, res: bool)
    requires forall j :: 0 <= j < |atoms| ==> atoms[j].featureId in features && 0 <= atoms[j].op < 6
    ensures RunFrom(atoms, features, i, cur, res) != Fault
    decreases |atoms| - i
  {
    if i < |atoms| {
      var a := atoms[i];
      if !(res && a.group > cur) {
        RunFromDefined(atoms, features, i + 1, cur, res);
        var r := Compare(a.op, features[a.featureId], a.value) != a.withNot;
        RunFromDefined(atoms, features, i + 1, if r then cur else cur + 1, r);
      }
    }
  }

  /** A missing feature faults even on an atom the loop would skip, unless a group was decided before it. */
  lemma FaultOnSkipped(atoms: seq<Atom>, features: map<int, real>)
    requires |atoms| == 2 && atoms[0].group == 0 && atoms[1].group == 0
    requires atoms[0].featureId in features && 0 <= atoms[0].op < 6 && !AtomTrue(atoms[0], features)
    requires atoms[1].featureId !in features
    ensures Run(atoms, features) == Fault
  {
    var a := atoms[0];
    var r := Compare(a.op, features[a.featureId], a.value) != a.withNot;
    assert !r;
    assert Run(atoms, features) == RunFrom(atoms, features, 1, 1, false);
  }

  // ---------------------------------------------------------------------
  // The classifier object
  // ---------------------------------------------------------------------

  class BooleanClassifier {
    var expression: seq<Atom>
    var initialized: bool

    constructor ()
      ensures expression == [] && !initialized
    {
      expression := [];
      initialized := false;
    }

    /**
     * init: splits the expression on spaces and compiles it against the
     * feature table, appending atoms as it goes; `parse` is the token to
     * number conversion (atof). Only a complete expression sets `initialized`.
     */
    method Init(expr: string, names: seq<string>, parse: string -> real) returns (ok: bool)
      modifies this
      ensures ok == CompileText(expr, names, parse).ok
      ensures expression == old(expression) + CompileText(expr, names, parse).atoms
      ensures initialized == (old(initialized) || ok)
    {
      var items := Split(expr, " ", []);
      assert items == Tokens(expr, " ");
      ok := CompileItems(items, names, parse);
    }

    /** The loop of init over the token list. */
    method CompileItems(items: seq<string>, names: seq<string>, parse: string -> real) returns (ok: bool)
      modifies this
      ensures ok == Compile(items, names, parse).ok
      ensures expression == old(expression) + Compile(items, names, parse).atoms
      ensures initialized == (old(initialized) || ok)
    {
      var needsOp := false;
      var group := 0;
      var neg := false;
      ghost var done: seq<Atom> := [];
      var i := 0;
      while i < |items|
        invariant 0 <= i <= |items|
        invariant expression == old(expression) + done
        invariant initialized == old(initialized)
        invariant Compile(items, names, parse) ==
          var c := CompileFrom(items[i..], names, parse, needsOp, group, neg);
          Compiled(done + c.atoms, c.ok)
      {
        CompileStep(items, i, names, parse, needsOp, group, neg);
        if needsOp {
          if items[i] == "&&" {
            needsOp := false;
          } else if items[i] == "||" {
            group := group + 1;
            needsOp := false;
          } else {
            return false;
          }
        } else {
          if items[i] == "!" {
            if neg {
              return false;
            } else {
              neg := true;
            }
          } else {
            var featureId := MatchList(items[i], names, 1);
            ExactMatchIsIndexOf(items[i], names);
            if featureId >= 0 {
              if i + 2 >= |items| {
                return false;
              }
              var op := MatchList(items[i + 1], Ops, 1);
              ExactMatchIsIndexOf(items[i + 1], Ops);
              if op < 0 {
                return false;
              }
              var atom := Atom(featureId, names[featureId], neg, op, parse(items[i + 2]), group);
              AtomStep(items, i, names, parse, group, neg, done, atom);
              expression := expression + [atom];
              done := done + [atom];
              neg := false;
              needsOp := true;
              i := i + 2;
            } else {
              return false;
            }
          }
        }
        i := i + 1;
      }
      assert items[i..] == [];
      if !needsOp {
        return false;
      }
      initialized := true;
      return true;
    }

    /** classify: runs the evaluator loop over the compiled atoms; the source asserts it does not fault. */
    method Classify(features: map<int, real>) returns (r: bool)
      requires Run(expression, features) != Fault
      ensures Run(expression, features) == Value(r)
      ensures WellGrouped(expression) ==> (r <==> OrOfAnds(expression, features))
    {
      var cur := 0;
      var res := false;
      var i := 0;
      while i < |expression|
        invariant 0 <= i <= |expression|
        invariant RunFrom(expression, features, i, cur, res) == Run(expression, features)
      {
        var atom := expression[i];
        if res && atom.group > cur {
          r := true;
          if WellGrouped(expression) {
            ClassifyIsOrOfAnds(expression, features);
          }
          return;
        } else if atom.group < cur {
          i := i + 1;
          continue;
        }
        var result := Compare(atom.op, features[atom.featureId], atom.value);
        if atom.withNot {
          result := !result;
        }
        if !result {
          cur := cur + 1;
        }
        res := result;
        i := i + 1;
      }
      r := res;
      if WellGrouped(expression) {
        ClassifyIsOrOfAnds(expression, features);
      }
    }
  }
}
