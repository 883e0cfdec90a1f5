/** The extraction walk of src/sv_parse.rs (`parse_module`). The syntax
    tree is visited node by node; the nodes the walk reacts to are given
    here already classified as events, each carrying the texts the walk
    reads from the tree. The walk threads a module under construction, the
    direction of the last ANSI port that spelt one, and a map from macro
    names to their latest replacement text, which range widths are
    evaluated against. */
module SvParse {
  import opened Text
  import opened SvEval
  import opened SvWidth
  import opened Hdl

  /** How a declaration spells its data type: a data type node with its
      first keyword, if any; an implicit data type; or neither. */
  datatype TypeForm = Explicit(keyword: Option<string>) | Implicit | Untyped

  /** The type text recorded for a port: the keyword of an explicit data
      type (`unknown` without one), `wire` for an implicit one, otherwise
      `unknown`. */
  function TypeName(form: TypeForm): string
  {
    match form
    case Explicit(Some(k)) => k
    case Explicit(None) => "unknown"
    case Implicit => "wire"
    case Untyped => "unknown"
  }

  /** A node the walk reacts to.
      - MacroDef: a text macro definition, with its name and replacement
        text when present;
      - ModuleDecl: a module declaration and its identifier;
      - PortDecl: a non-ANSI input, output or inout declaration: direction
        keyword, type, packed range tokens if any, and the identifiers of
        its port identifier list (none when the node holds no such list);
      - AnsiPort: an ANSI port with an identifier: its name, its direction
        keyword if spelt, whether it is a variable port, its type and its
        packed range tokens if any;
      - Other: any other node, including port declarations of other
        kinds. */
  datatype Event =
    | MacroDef(macroName: Option<string>, macroValue: Option<string>)
    | ModuleDecl(moduleName: string)
    | PortDecl(direction: string, form: TypeForm, range: Option<seq<Token>>, names: seq<string>)
    | AnsiPort(portName: string, ansiDirection: Option<string>, variable: bool, ansiForm: TypeForm, ansiRange: Option<seq<Token>>)
    | Other

  /** The module the walk builds: its name, its ports and the macro
      definitions seen, in walk order. */
  datatype ParsedModule = ParsedModule(name: string, ports: seq<Port>, defines: seq<Define>)

  function OrUnknown(text: Option<string>): string
  {
    if text.Some? then text.value else "unknown"
  }

  /** How a packed range is turned into width and range text against the
      macros seen so far. The walk is stated for any such resolver;
      `parse_module` uses `DimensionResolver`. */
  type Resolver = (map<string, string>, seq<Token>) -> (string, Option<string>)

  /** `parse_packed_dimension_range` as a resolver. */
  function DimensionResolver(engine: Engine): Resolver
  {
    (macros: map<string, string>, tokens: seq<Token>) => DimensionRange(engine, ExpressionOf(tokens).0, macros)
  }

  /** Width and range text of a declaration: `1` and none without a packed
      range, otherwise what the resolver gives against the macros seen so
      far. */
  function WidthOf(resolve: Resolver, macros: map<string, string>, range: Option<seq<Token>>): (r: (string, Option<string>))
    ensures range.None? ==> r == ("1", None)
  {
    match range
    case None => ("1", None)
    case Some(tokens) => resolve(macros, tokens)
  }

  /** One port per identifier of a grouped declaration, in list order,
      all sharing the declaration's direction, type and width. */
  function GroupPorts(direction: string, portType: string, width: (string, Option<string>), names: seq<string>): (r: seq<Port>)
    ensures |r| == |names|
    ensures forall i :: 0 <= i < |names| ==> r[i] == Port(names[i], direction, portType, width.0, width.1)
  {
    seq(|names|, i requires 0 <= i < |names| => Port(names[i], direction, portType, width.0, width.1))
  }

  /** The direction an ANSI port takes: its own, or else the last one
      spelt. */
  function AnsiDirection(own: Option<string>, lastDir: string): string
  {
    if own.Some? then own.value else lastDir
  }

  /** The ports an event adds, given the macro map and last ANSI direction
      before it. */
  function Added(resolve: Resolver, macros: map<string, string>, lastDir: string, e: Event): seq<Port>
  {
    match e
    case PortDecl(direction, form, range, names) =>
      GroupPorts(direction, TypeName(form), WidthOf(resolve, macros, range), names)
    case AnsiPort(name, own, variable, form, range) =>
      var width := WidthOf(resolve, macros, range);
      [Port(name, AnsiDirection(own, lastDir), if variable then "wire" else TypeName(form), width.0, width.1)]
    case _ => []
  }

  /** A port declared without a packed range has width `1` and no range
      text, for grouped and ANSI declarations alike. */
  lemma ScalarPortWidth(resolve: Resolver, macros: map<string, string>, lastDir: string, e: Event)
    requires (e.PortDecl? && e.range.None?) || (e.AnsiPort? && e.ansiRange.None?)
    ensures forall p :: p in Added(resolve, macros, lastDir, e) ==> p.width == "1" && p.widthExpression.None?
  {
    var r := Added(resolve, macros, lastDir, e);
    forall p | p in r
      ensures p.width == "1" && p.widthExpression.None?
    {
      var i :| 0 <= i < |r| && r[i] == p;
    }
  }


  /** The name of the last module declared among the first `n` nodes, or
      `""` if none: a module declaration overwrites the name and nothing
      else touches it. */
  function LastModuleName(events: seq<Event>, n: nat): string
    requires n <= |events|
  {
    if n == 0 then ""
    else
      var e := events[n - 1];
      if e.ModuleDecl? then e.moduleName else LastModuleName(events, n - 1)
  }

  /** The last direction an ANSI port among the first `n` nodes spelt, or
      `""` if none did: grouped declarations and every other node leave the
      direction alone. */
  function LastAnsiDirection(events: seq<Event>, n: nat): string
    requires n <= |events|
  {
    if n == 0 then ""
    else
      var e := events[n - 1];
      if e.AnsiPort? && e.ansiDirection.Some? then e.ansiDirection.value
      else LastAnsiDirection(events, n - 1)
  }

  /** The definition a node adds: one per macro definition, even for a name
      already defined. */
  function DefinesAdded(e: Event): seq<Define>
  {
    if e.MacroDef? then [Define(OrUnknown(e.macroName), OrUnknown(e.macroValue))] else []
  }

  /** The definitions of the macro definitions among the first `n` nodes,
      in order, duplicates kept. */
  function MacroDefines(events: seq<Event>, n: nat): seq<Define>
    requires n <= |events|
  {
    if n == 0 then [] else MacroDefines(events, n - 1) + DefinesAdded(events[n - 1])
  }

  /** The macro map after the first `n` nodes: each definition inserts its
      name, replacing an earlier value. */
  function MacroMap(events: seq<Event>, n: nat): map<string, string>
    requires n <= |events|
  {
    if n == 0 then map[]
    else
      var e := events[n - 1];
      var macros := MacroMap(events, n - 1);
      if e.MacroDef? then macros[OrUnknown(e.macroName) := OrUnknown(e.macroValue)] else macros
  }

  /** What a node adds to the port list, given the macro map and the last
      ANSI direction before it. The walk only ever appends, whatever a node
      adds; `parse_module` adds the ports of `DeclaredPorts`. */
  type PortAdder = (map<string, string>, string, Event) -> seq<Port>

  function DeclaredPorts(resolve: Resolver): PortAdder
  {
    (macros: map<string, string>, lastDir: string, e: Event) => Added(resolve, macros, lastDir, e)
  }

  /** The ports extracted from the first `n` nodes: each node appends what
      it adds, evaluated against the macros and the ANSI direction in force
      before it. */
  function PortsOf(add: PortAdder, events: seq<Event>, n: nat): seq<Port>
    requires n <= |events|
  {
    if n == 0 then []
    else PortsOf(add, events, n - 1) + add(MacroMap(events, n - 1), LastAnsiDirection(events, n - 1), events[n - 1])
  }

  /** The module extracted from the first `n` nodes. */
  function ModuleAfter(resolve: Resolver, events: seq<Event>, n: nat): ParsedModule
    requires n <= |events|
  {
    ParsedModule(LastModuleName(events, n), PortsOf(DeclaredPorts(resolve), events, n), MacroDefines(events, n))
  }

  /** The width of a declaration as `parse_module` computes it: `1`
      without a packed range, otherwise the dimension range. */
  method DeclarationWidth(engine: Engine, macros: map<string, string>, range: Option<seq<Token>>)
    returns (width: string, widthExpression: Option<string>)
    ensures (width, widthExpression) == WidthOf(DimensionResolver(engine), macros, range)
  {
    width, widthExpression := "1", None;
    if range.Some? {
      width, widthExpression := ParsePackedDimensionRange(engine, range.value, macros);
    }
  }

  /** The inner loop of a grouped declaration: one port pushed per
      identifier, in list order. */
  method PushGroup(ports: seq<Port>, direction: string, portType: string, width: string,
                   widthExpression: Option<string>, names: seq<string>)
    returns (r: seq<Port>)
    ensures r == ports + GroupPorts(direction, portType, (width, widthExpression), names)
  {
    ghost var group := GroupPorts(direction, portType, (width, widthExpression), names);
    r := ports;
    var j := 0;
    while j < |names|
      invariant 0 <= j <= |names|
      invariant r == ports + group[..j]
    {
      assert group[..j + 1] == group[..j] + [group[j]];
      r := r + [Port(names[j], direction, portType, width, widthExpression)];
      j := j + 1;
    }
    assert group[..j] == group;
  }

  /** The body of the walk for node `i`: given the module, the last ANSI
      direction and the macro map extracted from the nodes before it, it
      gives those extracted from the nodes up to and including it. */
  method WalkNode(engine: Engine, events: seq<Event>, i: nat,
                  m: ParsedModule, lastDir: string, macros: map<string, string>)
    returns (m': ParsedModule, lastDir': string, macros': map<string, string>)
    requires i < |events|
    requires m == ModuleAfter(DimensionResolver(engine), events, i)
    requires lastDir == LastAnsiDirection(events, i) && macros == MacroMap(events, i)
    ensures m' == ModuleAfter(DimensionResolver(engine), events, i + 1)
    ensures lastDir' == LastAnsiDirection(events, i + 1) && macros' == MacroMap(events, i + 1)
  {
    m', lastDir', macros' := m, lastDir, macros;
    match events[i] {
      case MacroDef(name, value) =>
        var n := if name.Some? then name.value else "unknown";
        var v := if value.Some? then value.value else "unknown";
        m' := m'.(defines := m'.defines + [Define(n, v)]);
        macros' := macros'[n := v];
      case ModuleDecl(name) =>
        m' := m'.(name := name);
      case PortDecl(direction, form, range, names) =>
        var width, widthExpression := DeclarationWidth(engine, macros, range);
        var ports := PushGroup(m'.ports, direction, TypeName(form), width, widthExpression, names);
        m' := m'.(ports := ports);
      case AnsiPort(name, direction, variable, form, range) =>
        if direction.Some? {
          lastDir' := direction.value;
        }
        var portType := if variable then "wire" else TypeName(form);
        var width, widthExpression := DeclarationWidth(engine, macros, range);
        m' := m'.(ports := m'.ports + [Port(name, lastDir', portType, width, widthExpression)]);
      case Other =>
    }
  }

  /** `parse_module`: walk the nodes, building the module; the walk never
      fails, so the module is returned directly. The module is named after
      the last module declaration, holds the ports of every declaration in
      walk order and every macro definition in walk order. */
  method ParseModule(engine: Engine, events: seq<Event>) returns (m: ParsedModule)
    ensures m.name == LastModuleName(events, |events|)
    ensures m.ports == PortsOf(DeclaredPorts(DimensionResolver(engine)), events, |events|)
    ensures m.defines == MacroDefines(events, |events|)
  {
    m := ParsedModule("", [], []);
    var lastDir := "";
    var macros: map<string, string> := map[];
    var i := 0;
    while i < |events|
      invariant 0 <= i <= |events|
      invariant m == ModuleAfter(DimensionResolver(engine), events, i)
      invariant lastDir == LastAnsiDirection(events, i) && macros == MacroMap(events, i)
    {
      m, lastDir, macros := WalkNode(engine, events, i, m, lastDir, macros);
      i := i + 1;
    }
  }

  /** Later nodes never change the ports already extracted: the ports
      after the first `k` nodes are a prefix of the ports after the first
      `n`, for `k <= n`. */
  lemma {:induction false} PortsPrefix(add: PortAdder, events: seq<Event>, k: nat, n: nat)
    requires k <= n <= |events|
    ensures var p := PortsOf(add, events, k);
            var q := PortsOf(add, events, n);
            |p| <= |q| && q[..|p|] == p
    decreases n
  {
    if k < n {
      PortsPrefix(add, events, k, n - 1);
      AppendKeepsPrefix(PortsOf(add, events, k), PortsOf(add, events, n - 1),
                        add(MacroMap(events, n - 1), LastAnsiDirection(events, n - 1), events[n - 1]));
    }
  }

  /** The number of ports a node declares. */
  function PortCount(e: Event): nat
  {
    match e
    case PortDecl(_, _, _, names) => |names|
    case AnsiPort(_, _, _, _, _) => 1
    case _ => 0
  }

  /** The number of ports the first `n` nodes declare. */
  function TotalPorts(events: seq<Event>, n: nat): nat
    requires n <= |events|
  {
    if n == 0 then 0 else TotalPorts(events, n - 1) + PortCount(events[n - 1])
  }

  /** Every port declaration contributes its ports and nothing else removes
      any: module declarations and macro definitions never clear ports. */
  lemma {:induction false} PortsCounted(resolve: Resolver, events: seq<Event>, n: nat)
    requires n <= |events|
    ensures |PortsOf(DeclaredPorts(resolve), events, n)| == TotalPorts(events, n)
    decreases n
  {
    if n > 0 {
      PortsCounted(resolve, events, n - 1);
      AddedCount(resolve, MacroMap(events, n - 1), LastAnsiDirection(events, n - 1), events[n - 1]);
    }
  }

  lemma AddedCount(resolve: Resolver, macros: map<string, string>, lastDir: string, e: Event)
    ensures |Added(resolve, macros, lastDir, e)| == PortCount(e)
  {
  }

  /** The value of the last definition of macro `name` among the first `n`
      nodes, if any. */
  function LatestMacro(events: seq<Event>, n: nat, name: string): Option<string>
    requires n <= |events|
  {
    if n == 0 then None
    else
      var e := events[n - 1];
      if e.MacroDef? && OrUnknown(e.macroName) == name then Some(OrUnknown(e.macroValue))
      else LatestMacro(events, n - 1, name)
  }

  /** The macro map holds exactly the macros defined so far, each with the
      value of its latest definition. */
  lemma {:induction false} MacrosLatest(events: seq<Event>, n: nat, name: string)
    requires n <= |events|
    ensures var macros := MacroMap(events, n);
      && (name in macros <==> LatestMacro(events, n, name).Some?)
      && (name in macros ==> macros[name] == LatestMacro(events, n, name).value)
    decreases n
  {
    if n > 0 {
      MacrosLatest(events, n - 1, name);
    }
  }

  /** The number of macro definitions among the first `n` nodes. */
  function MacroCount(events: seq<Event>, n: nat): nat
    requires n <= |events|
  {
    if n == 0 then 0 else MacroCount(events, n - 1) + (if events[n - 1].MacroDef? then 1 else 0)
  }

  /** Every macro definition adds one define and nothing else adds any:
      a redefinition is kept beside the earlier one. */
  lemma {:induction false} DefinesCounted(events: seq<Event>, n: nat)
    requires n <= |events|
    ensures |MacroDefines(events, n)| == MacroCount(events, n)
    decreases n
  {
    if n > 0 {
      DefinesCounted(events, n - 1);
    }
  }

  /** The defines of a shorter walk are a prefix of those of a longer one. */
  lemma {:induction false} DefinesPrefix(events: seq<Event>, k: nat, n: nat)
    requires k <= n <= |events|
    ensures var p := MacroDefines(events, k);
            var q := MacroDefines(events, n);
            |p| <= |q| && q[..|p|] == p
    decreases n
  {
    if k < n {
      DefinesPrefix(events, k, n - 1);
      AppendKeepsPrefix(MacroDefines(events, k), MacroDefines(events, n - 1), DefinesAdded(events[n - 1]));
    }
  }

  /** Appending to a sequence keeps each of its prefixes. */
  lemma AppendKeepsPrefix<T>(p: seq<T>, r: seq<T>, x: seq<T>)
    requires |p| <= |r| && r[..|p|] == p
    ensures |p| <= |r + x| && (r + x)[..|p|] == p
  {
    assert (r + x)[..|p|] == r[..|p|];
  }

  /** Macro definition `i` appears in the returned module's defines at the
      position given by the macro definitions before it, with its name and
      value or `unknown` for a missing one. */
  lemma DefinesPlaced(events: seq<Event>, i: nat)
    requires i < |events| && events[i].MacroDef?
    ensures var b := MacroCount(events, i);
            var defines := MacroDefines(events, |events|);
            b < |defines| && defines[b] == Define(OrUnknown(events[i].macroName), OrUnknown(events[i].macroValue))
  {
    DefinesCounted(events, i);
    DefinesPrefix(events, i + 1, |events|);
    var p := MacroDefines(events, i + 1);
    var q := MacroDefines(events, |events|);
    assert q[..|p|][MacroCount(events, i)] == q[MacroCount(events, i)];
  }

  /** The ports node `i` adds stay in place, unchanged, in the module the
      whole walk returns. */
  lemma PortsPlaced(add: PortAdder, events: seq<Event>, i: nat)
    requires i < |events|
    ensures var front := PortsOf(add, events, i);
            var added := add(MacroMap(events, i), LastAnsiDirection(events, i), events[i]);
            var ports := PortsOf(add, events, |events|);
            && |front| + |added| <= |ports|
            && forall j :: 0 <= j < |added| ==> ports[|front| + j] == added[j]
  {
    var front := PortsOf(add, events, i);
    var added := add(MacroMap(events, i), LastAnsiDirection(events, i), events[i]);
    var p := PortsOf(add, events, i + 1);
    var q := PortsOf(add, events, |events|);
    PortsStep(add, events, i);
    PortsPrefix(add, events, i + 1, |events|);
    PrefixElements(p, q, front, added);
  }

  /** One more node appends what it adds to the ports. */
  lemma PortsStep(add: PortAdder, events: seq<Event>, i: nat)
    requires i < |events|
    ensures PortsOf(add, events, i + 1) == PortsOf(add, events, i) + add(MacroMap(events, i), LastAnsiDirection(events, i), events[i])
  {
  }

  lemma PrefixElements(p: seq<Port>, q: seq<Port>, front: seq<Port>, added: seq<Port>)
    requires p == front + added && |p| <= |q| && q[..|p|] == p
    ensures |front| + |added| <= |q| && forall j :: 0 <= j < |added| ==> q[|front| + j] == added[j]
  {
    forall j | 0 <= j < |added|
      ensures q[|front| + j] == added[j]
    {
      assert q[..|p|][|front| + j] == q[|front| + j];
    }
  }

  /** The ports of grouped declaration `i` in the returned module: one
      port per identifier, in list order, sharing the declaration's
      direction, type and width, the width evaluated against the macros
      defined before the declaration. */
  lemma GroupedPorts(resolve: Resolver, events: seq<Event>, i: nat)
    requires i < |events| && events[i].PortDecl?
    ensures var e := events[i];
            var width := WidthOf(resolve, MacroMap(events, i), e.range);
            var b := |PortsOf(DeclaredPorts(resolve), events, i)|;
            var ports := PortsOf(DeclaredPorts(resolve), events, |events|);
            && b + |e.names| <= |ports|
            && forall j :: 0 <= j < |e.names| ==>
                 ports[b + j] == Port(e.names[j], e.direction, TypeName(e.form), width.0, width.1)
  {
    var e := events[i];
    var macros := MacroMap(events, i);
    var lastDir := LastAnsiDirection(events, i);
    AddedGroup(resolve, macros, lastDir, e);
    var width := WidthOf(resolve, macros, e.range);
    assert DeclaredPorts(resolve)(macros, lastDir, e) == GroupPorts(e.direction, TypeName(e.form), width, e.names);
    PlacedGroup(DeclaredPorts(resolve), events, i, e.direction, TypeName(e.form), width, e.names);
  }

  /** A node that adds a group of ports, for any way of adding ports: the
      group appears in the whole walk's ports after those of the nodes
      before it. */
  lemma PlacedGroup(add: PortAdder, events: seq<Event>, i: nat, direction: string, portType: string,
                    width: (string, Option<string>), names: seq<string>)
    requires i < |events|
    requires add(MacroMap(events, i), LastAnsiDirection(events, i), events[i]) == GroupPorts(direction, portType, width, names)
    ensures var b := |PortsOf(add, events, i)|;
            var ports := PortsOf(add, events, |events|);
            && b + |names| <= |ports|
            && forall j :: 0 <= j < |names| ==> ports[b + j] == Port(names[j], direction, portType, width.0, width.1)
  {
    PortsPlaced(add, events, i);
    GroupAt(PortsOf(add, events, |events|), |PortsOf(add, events, i)|,
            add(MacroMap(events, i), LastAnsiDirection(events, i), events[i]), direction, portType, width, names);
  }

  /** A group of ports found from position `b` on: one port per name. */
  lemma GroupAt(ports: seq<Port>, b: nat, added: seq<Port>, direction: string, portType: string,
                width: (string, Option<string>), names: seq<string>)
    requires added == GroupPorts(direction, portType, width, names)
    requires b + |added| <= |ports| && forall j :: 0 <= j < |added| ==> ports[b + j] == added[j]
    ensures b + |names| <= |ports|
    ensures forall j :: 0 <= j < |names| ==> ports[b + j] == Port(names[j], direction, portType, width.0, width.1)
  {
  }

  lemma AddedGroup(resolve: Resolver, macros: map<string, string>, lastDir: string, e: Event)
    requires e.PortDecl?
    ensures Added(resolve, macros, lastDir, e) == GroupPorts(e.direction, TypeName(e.form), WidthOf(resolve, macros, e.range), e.names)
  {
  }

  /** The port of ANSI declaration `i` in the returned module: its own
      direction, or else the last direction spelt by an earlier ANSI port
      (`""` if none); type `wire` for a variable port; the width evaluated
      against the macros defined before it. */
  lemma AnsiPortPlaced(resolve: Resolver, events: seq<Event>, i: nat)
    requires i < |events| && events[i].AnsiPort?
    ensures var e := events[i];
            var width := WidthOf(resolve, MacroMap(events, i), e.ansiRange);
            var b := |PortsOf(DeclaredPorts(resolve), events, i)|;
            var ports := PortsOf(DeclaredPorts(resolve), events, |events|);
            && b < |ports|
            && ports[b] == Port(e.portName, AnsiDirection(e.ansiDirection, LastAnsiDirection(events, i)),
                                if e.variable then "wire" else TypeName(e.ansiForm), width.0, width.1)
  {
    var e := events[i];
    var width := WidthOf(resolve, MacroMap(events, i), e.ansiRange);
    var added := Added(resolve, MacroMap(events, i), LastAnsiDirection(events, i), e);
    assert added == [Port(e.portName, AnsiDirection(e.ansiDirection, LastAnsiDirection(events, i)),
                          if e.variable then "wire" else TypeName(e.ansiForm), width.0, width.1)];
    PortsPlaced(DeclaredPorts(resolve), events, i);
    assert added[0] == added[0 + 0];
  }

  /** A node that spells an ANSI direction. */
  predicate SpeltDirection(e: Event)
  {
    e.AnsiPort? && e.ansiDirection.Some?
  }

  /** Direction inheritance: after an ANSI port that spells its direction,
      and up to the next one that does, that direction is in force;
      grouped declarations and all other nodes in between leave it. */
  lemma {:induction false} DirectionInherited(events: seq<Event>, j: nat, n: nat)
    requires j < n <= |events| && SpeltDirection(events[j])
    requires forall k :: j < k < n ==> !SpeltDirection(events[k])
    ensures LastAnsiDirection(events, n) == events[j].ansiDirection.value
    decreases n
  {
    if n > j + 1 {
      DirectionInherited(events, j, n - 1);
    }
  }

  /** Before any ANSI port spells a direction, the direction in force is
      the empty text. */
  lemma {:induction false} NoDirectionYet(events: seq<Event>, n: nat)
    requires n <= |events|
    requires forall k :: 0 <= k < n ==> !SpeltDirection(events[k])
    ensures LastAnsiDirection(events, n) == ""
    decreases n
  {
    if n > 0 {
      NoDirectionYet(events, n - 1);
    }
  }

  /** The module takes the name of the last module declaration: one at
      node `j` with no later declaration before node `n` names the module
      extracted from the first `n` nodes. */
  lemma {:induction false} ModuleNamed(events: seq<Event>, j: nat, n: nat)
    requires j < n <= |events| && events[j].ModuleDecl?
    requires forall k :: j < k < n ==> !events[k].ModuleDecl?
    ensures LastModuleName(events, n) == events[j].moduleName
    decreases n
  {
    if n > j + 1 {
      ModuleNamed(events, j, n - 1);
    }
  }

  /** The macros a width is evaluated against are those of the earlier
      nodes only: walks that agree on the first `k` nodes have the same
      macro map there, whatever follows. */
  lemma {:induction false} MacrosBefore(a: seq<Event>, b: seq<Event>, k: nat)
    requires k <= |a| && k <= |b| && a[..k] == b[..k]
    ensures MacroMap(a, k) == MacroMap(b, k)
    decreases k
  {
    if k > 0 {
      assert a[..k - 1] == a[..k][..k - 1] && b[..k - 1] == b[..k][..k - 1];
      MacrosBefore(a, b, k - 1);
      assert a[k - 1] == a[..k][k - 1] && b[k - 1] == b[..k][k - 1];
    }
  }
}
