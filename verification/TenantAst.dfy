/**
 The TypeScript that hetzner/tenants.structure.scan.ts reads, and what it evaluates to. A program is its declaring
 nodes in the order a walk meets them and its outermost expressions, initializers included.
 */
module TenantAst {
  import opened Common

  datatype Expr =
    | Ident(name: string)
    | Text(value: string)
    | Access(target: Expr, key: string, optional: bool)
    | Index(target: Expr, argument: Expr, optional: bool)
    | Wrapped(inner: Expr)               // (e), e as T, e satisfies T, <T>e, e!
    | Call(callee: Expr, args: seq<Expr>)
    | New(callee: Expr, args: seq<Expr>)
    | Spread(inner: Expr)                // ...e as an argument or an element
    | Object(props: seq<Property>)
    | Array(elements: seq<Expr>)
    | Opaque(parts: seq<Expr>)           // any other expression: functions, operators, templates

  datatype PropName = Plain(text: string, identifier: bool) | Computed(expr: Expr)

  datatype Property =
    | Assign(name: PropName, value: Expr)
    | Shorthand(variable: string)
    | Method(name: PropName, parts: seq<Expr>)   // methods and accessors
    | Spreading(source: Expr)

  datatype Declaration =
    | NamespaceImport(name: string, package: string, typeOnly: bool)
    | ImportSpecifier(name: string, property: Option<string>, package: string, typeOnly: bool)
    | Variable(variable: Option<string>, init: Option<Expr>, isConst: bool, single: bool, exportedTopLevel: bool)
    | Element(element: Option<string>, key: Option<string>, plain: bool, source: Option<Expr>, isConst: bool, single: bool)
    | Other(other: Option<string>)       // parameters, functions, classes, types, enums, ...

  datatype Program = Program(declarations: seq<Declaration>, expressions: seq<Expr>)

  /** The name a declaring node introduces, when it is an identifier. */
  function NameOf(d: Declaration): Option<string> {
    match d
    case NamespaceImport(name, _, _) => Some(name)
    case ImportSpecifier(name, _, _, _) => Some(name)
    case Variable(variable, _, _, _, _) => variable
    case Element(element, _, _, _, _, _) => element
    case Other(other) => other
  }

  // ---- Sub-expressions ----

  function NameParts(name: PropName): (r: seq<Expr>)
    ensures forall c :: c in r ==> c < name
  {
    if name.Computed? then [name.expr] else []
  }

  function PropertyParts(p: Property): (r: seq<Expr>)
    ensures forall c :: c in r ==> c < p
  {
    match p
    case Assign(name, value) => NameParts(name) + [value]
    case Shorthand(_) => []
    case Method(name, parts) => NameParts(name) + parts
    case Spreading(source) => [source]
  }

  function PropertiesParts(ps: seq<Property>): (r: seq<Expr>)
    ensures forall c :: c in r ==> exists i :: 0 <= i < |ps| && c < ps[i]
  {
    if ps == [] then []
    else
      assert forall i :: 0 <= i < |ps| - 1 ==> ps[1..][i] == ps[i + 1];
      PropertyParts(ps[0]) + PropertiesParts(ps[1..])
  }

  /** The expressions directly inside an expression, in source order. */
  function Parts(e: Expr): (r: seq<Expr>)
    ensures forall c :: c in r ==> c < e
  {
    match e
    case Ident(_) => []
    case Text(_) => []
    case Access(target, _, _) => [target]
    case Index(target, argument, _) => [target, argument]
    case Wrapped(inner) => [inner]
    case Call(callee, args) => [callee] + args
    case New(callee, args) => [callee] + args
    case Spread(inner) => [inner]
    case Object(props) => PropertiesParts(props)
    case Array(elements) => elements
    case Opaque(parts) => parts
  }

  /** Whether `x` is `e` or lies anywhere inside it. */
  ghost predicate Within(x: Expr, e: Expr)
    decreases e
  {
    x == e || exists c :: c in Parts(e) && Within(x, c)
  }

  ghost predicate Occurs(p: Program, x: Expr) {
    exists k :: 0 <= k < |p.expressions| && Within(x, p.expressions[k])
  }

  // ---- Evaluation ----

  datatype Value =
    | Undefined
    | Str(text: string)
    | Module(package: string)                 // a module namespace object
    | Export(package: string, member: string) // what a module exports under a name
    | Verified(call: nat)                    // what a call of the file's `verified` returned
    | Applied(base: Value, call: nat)        // what `.apply(...)` of a value returned
    | Record(fields: map<string, Value>)
    | List(items: seq<Value>)
    | Foreign(id: nat)

  /** What reading member `key` of a value may give. A namespace object's members are the module's exports. */
  predicate MemberOf(target: Value, key: string, v: Value) {
    match target
    case Undefined => false
    case Module(package) => v == Export(package, key)
    case Record(fields) => key in fields ==> v == fields[key]
    case _ => true
  }

  /** The same through `?.`, which gives `undefined` where there is no object. */
  predicate MayRead(target: Value, key: string, optional: bool, v: Value) {
    MemberOf(target, key, v) || (optional && target.Undefined? && v.Undefined?)
  }

  /** What calling `.apply(...)` on a value may give. */
  predicate MayApply(base: Value, optional: bool, v: Value) {
    (v.Applied? && v.base == base) || (optional && base.Undefined? && v.Undefined?)
  }

  /**
   Whether `e` may evaluate to `v`, by an evaluation at most `depth` deep. A name is one of the file's own
   declarations of it; what the file does not determine (a parameter, a call, a `let`) may be any value.
   */
  ghost predicate Evaluates(p: Program, e: Expr, v: Value, depth: nat)
    decreases depth, 0, 0
  {
    depth > 0 &&
    match e
    case Ident(name) =>
      || (forall d :: 0 <= d < |p.declarations| ==> NameOf(p.declarations[d]) != Some(name))
      || (exists d :: 0 <= d < |p.declarations| && NameOf(p.declarations[d]) == Some(name) && Declares(p, d, v, depth - 1))
    case Text(value) => v == Str(value)
    case Wrapped(inner) => Evaluates(p, inner, v, depth - 1)
    case Access(target, key, optional) =>
      exists o :: Evaluates(p, target, o, depth - 1) && MayRead(o, key, optional, v)
    case Index(target, argument, optional) =>
      exists o :: Evaluates(p, target, o, depth - 1) && (argument.Text? ==> MayRead(o, argument.value, optional, v))
    case Call(callee, args) =>
      if callee == Ident("verified") then v.Verified?
      else if callee.Access? && callee.key == "apply" then
        exists base :: Evaluates(p, callee.target, base, depth - 1) && MayApply(base, callee.optional, v)
      else true
    case Object(props) => v.Record? && Fills(p, props, v.fields, depth - 1)
    case Array(elements) => v.List? && Lists(p, elements, v.items, depth - 1)
    case Spread(_) => false
    case New(_, _) => true
    case Opaque(_) => true
  }

  /** Whether declaration `d` may bind its name to `v`. */
  ghost predicate Declares(p: Program, d: nat, v: Value, depth: nat)
    requires d < |p.declarations|
    decreases depth, 1, 0
  {
    match p.declarations[d]
    case NamespaceImport(_, package, typeOnly) => !typeOnly ==> v == Module(package)
    case ImportSpecifier(name, property, package, typeOnly) => !typeOnly ==> v == Export(package, property.GetOr(name))
    case Variable(_, init, isConst, _, _) => isConst && init.Some? ==> Evaluates(p, init.value, v, depth)
    case Element(_, key, plain, source, isConst, _) =>
      isConst && plain && key.Some? && source.Some? ==>
        exists o :: Evaluates(p, source.value, o, depth) && MemberOf(o, key.value, v)
    case Other(_) => true
  }

  /** Whether the properties, written left to right with the last write winning, may leave exactly `fields`. */
  ghost predicate Fills(p: Program, props: seq<Property>, fields: map<string, Value>, depth: nat)
    decreases depth, 1, |props|
  {
    if props == [] then fields == map[]
    else
      var rest, last := props[..|props| - 1], props[|props| - 1];
      exists before: map<string, Value> :: Fills(p, rest, before, depth) && Writes(p, last, before, fields, depth)
  }

  ghost predicate Writes(p: Program, prop: Property, before: map<string, Value>, after: map<string, Value>, depth: nat)
    decreases depth, 1, 0
  {
    match prop
    case Assign(Plain(key, _), value) =>
      if key == "__proto__" then after == before
      else exists v :: Evaluates(p, value, v, depth) && after == before[key := v]
    case Shorthand(name) => exists v :: Evaluates(p, Ident(name), v, depth) && after == before[name := v]
    case Method(Plain(key, _), _) => key in after && after == before[key := after[key]]
    case Spreading(_) => exists added: map<string, Value> :: after == before + added
    case _ => exists key :: key in after && after == before[key := after[key]]
  }

  ghost predicate Lists(p: Program, elements: seq<Expr>, items: seq<Value>, depth: nat)
    decreases depth, 1, |elements|
  {
    if elements == [] then items == []
    else
      var rest, last := elements[..|elements| - 1], elements[|elements| - 1];
      exists n :: 0 <= n <= |items| && Lists(p, rest, items[..n], depth) &&
                  (last.Spread? || (n == |items| - 1 && Evaluates(p, last, items[n], depth)))
  }
}
