/** The Chisel emitter of src/converter.rs: every module becomes the text
    of a Scala source declaring a Chisel `BlackBox` whose IO bundle holds
    one `UInt` field per port, either inline or as a separate named
    `Bundle` class. */
module Converter {
  import opened Text
  import opened Hdl

  /** The emitter's one option: whether the IO bundle is split out. */
  datatype ChiselConverter = ChiselConverter(splitBundle: bool)

  /** `ChiselConverter::builder`: the default, inline bundle. */
  function Builder(): (c: ChiselConverter)
    ensures !c.splitBundle
  {
    ChiselConverter(false)
  }

  /** `split_bundle`: the same converter, with the bundle split out. */
  function SplitBundle(c: ChiselConverter): (r: ChiselConverter)
    ensures r.splitBundle
  {
    c.(splitBundle := true)
  }

  /** `port_to_chisel`: one field declaration of the IO bundle. */
  function PortToChisel(p: Port): string
  {
    "val " + p.name + " = " + p.direction + "(UInt(" + p.width + ".W))"
  }

  /** The first index of `c` in `s`, if any. */
  function FirstIndex(s: string, c: char): (r: Option<nat>)
    ensures r.Some? ==> r.value < |s| && s[r.value] == c && c !in s[..r.value]
    ensures r.None? ==> c !in s
    decreases |s|
  {
    if s == [] then None
    else if s[0] == c then Some(0)
    else match FirstIndex(s[1..], c)
      case None => None
      case Some(i) => assert s[..i + 1] == [s[0]] + s[1..][..i]; Some(i + 1)
  }

  lemma FirstIndexAt(s: string, c: char, k: nat)
    requires k < |s| && s[k] == c && c !in s[..k]
    ensures FirstIndex(s, c) == Some(k)
  {
  }

  /** Reading a field declaration back: name, direction and width. */
  function ParseField(line: string): Option<(string, string, string)>
  {
    if |line| < 4 || line[..4] != "val " then None else ParseNamed(line[4..])
  }

  /** The name up to the first space, then ` = ` and the typed part. */
  function ParseNamed(rest: string): Option<(string, string, string)>
  {
    match FirstIndex(rest, ' ')
    case None => None
    case Some(i) =>
      var afterName := rest[i..];
      if |afterName| < 3 || afterName[..3] != " = " then None
      else match ParseTyped(afterName[3..])
        case None => None
        case Some(dw) => Some((rest[..i], dw.0, dw.1))
  }

  /** The direction up to the first opening parenthesis, then the
      `(UInt(<width>.W))` call. */
  function ParseTyped(typed: string): Option<(string, string)>
  {
    match FirstIndex(typed, '(')
    case None => None
    case Some(j) =>
      var call := typed[j..];
      if |call| < 10 || call[..6] != "(UInt(" || call[|call| - 4..] != ".W))" then None
      else Some((typed[..j], call[6..|call| - 4]))
  }

  lemma ParseTypedOf(direction: string, width: string)
    requires '(' !in direction
    ensures ParseTyped(direction + "(UInt(" + width + ".W))") == Some((direction, width))
  {
    var call := "(UInt(" + width + ".W))";
    var typed := direction + call;
    assert direction + "(UInt(" + width + ".W))" == typed;
    assert typed[..|direction|] == direction && typed[|direction|..] == call;
    FirstIndexAt(typed, '(', |direction|);
    assert call[..6] == "(UInt(" && call[|call| - 4..] == ".W))" && call[6..|call| - 4] == width;
  }

  lemma ParseNamedOf(name: string, typed: string)
    requires ' ' !in name
    ensures ParseNamed(name + " = " + typed) == match ParseTyped(typed)
      case None => None
      case Some(dw) => Some((name, dw.0, dw.1))
  {
    var afterName := " = " + typed;
    var rest := name + afterName;
    assert name + " = " + typed == rest;
    assert rest[..|name|] == name && rest[|name|..] == afterName;
    FirstIndexAt(rest, ' ', |name|);
    assert afterName[..3] == " = " && afterName[3..] == typed;
  }

  /** A field declaration reads back as its port's name, direction and
      width, when the name holds no space and the direction no opening
      parenthesis. */
  lemma FieldRoundTrip(p: Port)
    requires ' ' !in p.name && '(' !in p.direction
    ensures ParseField(PortToChisel(p)) == Some((p.name, p.direction, p.width))
  {
    var typed := p.direction + "(UInt(" + p.width + ".W))";
    var rest := p.name + " = " + typed;
    var line := PortToChisel(p);
    assert line == "val " + rest;
    assert line[..4] == "val " && line[4..] == rest;
    ParseTypedOf(p.direction, p.width);
    ParseNamedOf(p.name, typed);
  }

  /** Each line indented by `n` spaces, empty lines left empty. */
  function IndentLines(lines: seq<string>, n: nat): (r: seq<string>)
    ensures |r| == |lines|
    ensures forall i :: 0 <= i < |lines| ==>
      (lines[i] == [] ==> r[i] == []) && (lines[i] != [] ==> r[i] == Spaces(n) + lines[i])
  {
    seq(|lines|, i requires 0 <= i < |lines| => if lines[i] == [] then lines[i] else Spaces(n) + lines[i])
  }

  /** `indent_block`: the lines of `text`, each non-empty one indented by
      `n` spaces, joined by line feeds. */
  function IndentBlock(text: string, n: nat): string
  {
    Join(IndentLines(Lines(text), n), '\n')
  }

  /** No piece of a split holds the separator. */
  lemma {:induction false} SplitPiecesFree(s: string, sep: char)
    ensures forall i :: 0 <= i < |Split(s, sep)| ==> sep !in Split(s, sep)[i]
    decreases |s|
  {
    if s != [] {
      SplitPiecesFree(s[1..], sep);
    }
  }

  /** No line of a text holds a line feed. */
  lemma LinesFree(text: string)
    ensures forall i :: 0 <= i < |Lines(text)| ==> '\n' !in Lines(text)[i]
  {
    var pieces := Split(text, '\n');
    SplitPiecesFree(text, '\n');
    forall i | 0 <= i < |pieces| - 1
      ensures '\n' !in StripCr(pieces[i])
    {
      assert pieces[..|pieces| - 1][i] == pieces[i];
      if |pieces[i]| > 0 && pieces[i][|pieces[i]| - 1] == '\r' {
        assert forall k :: 0 <= k < |pieces[i]| - 1 ==> pieces[i][..|pieces[i]| - 1][k] == pieces[i][k];
      }
    }
  }

  /** The pieces of an indented block are the lines of the text, each
      non-empty one indented; a text without lines gives one empty
      piece. */
  lemma IndentBlockPieces(text: string, n: nat)
    ensures Split(IndentBlock(text, n), '\n') == if Lines(text) == [] then [""] else IndentLines(Lines(text), n)
  {
    var lines := Lines(text);
    if lines != [] {
      LinesFree(text);
      var r := IndentLines(lines, n);
      forall i | 0 <= i < |r|
        ensures '\n' !in r[i]
      {
        if lines[i] != [] {
          assert forall k :: 0 <= k < |r[i]| ==> r[i][k] == (if k < n then ' ' else lines[i][k - n]);
        }
      }
      SplitJoin(r, '\n');
    }
  }

  /** The field declarations of some ports, one per port. */
  function PortLines(ports: seq<Port>): (r: seq<string>)
    ensures |r| == |ports| && forall i :: 0 <= i < |ports| ==> r[i] == PortToChisel(ports[i])
  {
    seq(|ports|, i requires 0 <= i < |ports| => PortToChisel(ports[i]))
  }

  /** The bundle's field block: the port declarations, one per line,
      indented by eight spaces. */
  function FieldBlock(ports: seq<Port>): string
  {
    IndentBlock(Join(PortLines(ports), '\n'), 8)
  }

  /** The lines of a field block, one per port, each indented by eight
      spaces; a single empty line when there are no ports. */
  function FieldLines(ports: seq<Port>): seq<string>
  {
    if ports == [] then [""] else seq(|ports|, i requires 0 <= i < |ports| => Spaces(8) + PortToChisel(ports[i]))
  }

  predicate SingleLine(p: Port)
  {
    '\n' !in p.name && '\n' !in p.direction && '\n' !in p.width
  }

  lemma PortLineFree(p: Port)
    requires SingleLine(p)
    ensures '\n' !in PortToChisel(p) && StripCr(PortToChisel(p)) == PortToChisel(p) && PortToChisel(p) != []
  {
    var line := PortToChisel(p);
    var w := "(UInt(" + p.width + ".W))";
    assert line == "val " + p.name + " = " + p.direction + w;
    assert line[|line| - 1] == ')';
    forall k | 0 <= k < |line|
      ensures line[k] != '\n'
    {
      if k >= 4 + |p.name| + 3 + |p.direction| {
        assert line[k] == w[k - (4 + |p.name| + 3 + |p.direction|)];
      } else if k >= 4 + |p.name| + 3 {
        assert line[k] == p.direction[k - (4 + |p.name| + 3)];
      } else if k >= 4 + |p.name| {
        assert line[k] == " = "[k - (4 + |p.name|)];
      } else if k >= 4 {
        assert line[k] == p.name[k - 4];
      }
    }
  }

  /** Every port of a module takes exactly one line of its field block,
      indented by eight spaces, in port order, when no name, direction or
      width holds a line feed. */
  lemma FieldBlockLines(ports: seq<Port>)
    requires forall i :: 0 <= i < |ports| ==> SingleLine(ports[i])
    ensures Split(FieldBlock(ports), '\n') == FieldLines(ports)
  {
    var lines := PortLines(ports);
    if ports == [] {
      NoPortsBlock(lines);
    } else {
      PortLinesClean(ports);
      LinesOfJoin(lines);
      IndentBlockPieces(Join(lines, '\n'), 8);
      IndentPortLines(ports);
    }
  }

  lemma NoPortsBlock(lines: seq<string>)
    requires lines == []
    ensures Split(IndentBlock(Join(lines, '\n'), 8), '\n') == [""]
  {
    assert Lines(Join(lines, '\n')) == [];
  }

  lemma PortLinesClean(ports: seq<Port>)
    requires forall i :: 0 <= i < |ports| ==> SingleLine(ports[i])
    ensures var lines := PortLines(ports);
      forall i :: 0 <= i < |lines| ==> '\n' !in lines[i] && StripCr(lines[i]) == lines[i] && lines[i] != []
  {
    forall i | 0 <= i < |ports|
      ensures '\n' !in PortToChisel(ports[i]) && StripCr(PortToChisel(ports[i])) == PortToChisel(ports[i]) && PortToChisel(ports[i]) != []
    {
      PortLineFree(ports[i]);
    }
  }

  lemma IndentPortLines(ports: seq<Port>)
    requires ports != []
    ensures IndentLines(PortLines(ports), 8) == FieldLines(ports)
  {
    var lines := PortLines(ports);
    forall i | 0 <= i < |ports|
      ensures lines[i] != []
    {
      assert PortToChisel(ports[i])[0] == 'v';
    }
  }

  /** The lines of the inline layout before the field block: the import,
      a blank line, the black box opening its anonymous bundle. */
  function InlineHead(name: string): seq<string>
  {
    ["import chisel3._", "", "class " + name + " extends BlackBox {", "    val io = IO(new Bundle {"]
  }

  /** The lines of the inline layout after the field block, closing the
      bundle and the black box and ending the text with a line feed. */
  function InlineTail(): seq<string>
  {
    ["    })", "}", ""]
  }

  /** The lines of the split layout before the field block: the import, a
      blank line, the opening of the `<name>_Bundle` class. */
  function SplitHead(name: string): seq<string>
  {
    ["import chisel3._", "", "class " + name + "_Bundle extends Bundle {"]
  }

  /** The lines of the split layout after the field block: the bundle's
      closing, a blank line, the black box instantiating the bundle, and
      the final line feed. */
  function SplitTail(name: string): seq<string>
  {
    ["}", "", "class " + name + " extends BlackBox {", "    val io = IO(new " + name + "_Bundle)", "}", ""]
  }

  /** `module_to_chisel`'s inline template: the field block inside an
      anonymous bundle of the black box. */
  function InlineLayout(name: string, fields: string): string
  {
    Join(InlineHead(name) + [fields] + InlineTail(), '\n')
  }

  /** `module_to_chisel`'s split template: the field block in a
      `<name>_Bundle` class, which the black box instantiates. */
  function SplitLayout(name: string, fields: string): string
  {
    Join(SplitHead(name) + [fields] + SplitTail(name), '\n')
  }

  /** `module_to_chisel`. */
  function ModuleToChisel(m: Module, split: bool): string
  {
    var fields := FieldBlock(m.ports);
    if split then SplitLayout(m.name, fields) else InlineLayout(m.name, fields)
  }

  /** Joining two non-empty lists puts one separator between their
      joins. */
  lemma {:induction false} JoinAppend(a: seq<string>, b: seq<string>, sep: char)
    requires a != [] && b != []
    ensures Join(a + b, sep) == Join(a, sep) + [sep] + Join(b, sep)
    decreases |a|
  {
    if |a| == 1 {
      assert (a + b)[1..] == b;
    } else {
      JoinAppend(a[1..], b, sep);
      assert (a + b)[1..] == a[1..] + b;
    }
  }

  /** Splitting a join of lines around a middle text that may span
      several lines gives the outer lines and the middle's own pieces. */
  lemma SplitJoinAround(h: seq<string>, mid: string, t: seq<string>)
    requires h != [] && t != []
    requires FeedFree(h) && FeedFree(t)
    ensures Split(Join(h + [mid] + t, '\n'), '\n') == h + Split(mid, '\n') + t
  {
    var pieces := Split(mid, '\n');
    JoinMiddle(h, mid, t);
    SplitPiecesFree(mid, '\n');
    FeedFreeConcat(h, pieces, t);
    SplitJoin(h + pieces + t, '\n');
  }

  /** A middle text may be replaced by its pieces inside a join. */
  lemma JoinMiddle(h: seq<string>, mid: string, t: seq<string>)
    requires h != [] && t != []
    ensures Join(h + [mid] + t, '\n') == Join(h + Split(mid, '\n') + t, '\n')
  {
    JoinSplit(mid, '\n');
    JoinAround(h, [mid], t, '\n');
    JoinAround(h, Split(mid, '\n'), t, '\n');
  }

  lemma JoinAround(h: seq<string>, m: seq<string>, t: seq<string>, sep: char)
    requires h != [] && m != [] && t != []
    ensures Join(h + m + t, sep) == Join(h, sep) + [sep] + Join(m, sep) + [sep] + Join(t, sep)
  {
    JoinAppend(h, m + t, sep);
    JoinAppend(m, t, sep);
    assert h + m + t == h + (m + t);
  }

  lemma FeedFreeConcat(h: seq<string>, p: seq<string>, t: seq<string>)
    requires FeedFree(h) && FeedFree(p) && FeedFree(t)
    ensures FeedFree(h + p + t)
  {
    var all := h + p + t;
    forall i | 0 <= i < |all|
      ensures '\n' !in all[i]
    {
      if i < |h| {
        assert all[i] == h[i];
      } else if i < |h| + |p| {
        assert all[i] == p[i - |h|];
      } else {
        assert all[i] == t[i - |h| - |p|];
      }
    }
  }

  lemma ClassLineFree(name: string, suffix: string)
    requires '\n' !in name && '\n' !in suffix
    ensures '\n' !in "class " + name + suffix
  {
    var s := "class " + name + suffix;
    forall k | 0 <= k < |s|
      ensures s[k] != '\n'
    {
      if k >= 6 + |name| {
        assert s[k] == suffix[k - 6 - |name|];
      } else if k >= 6 {
        assert s[k] == name[k - 6];
      }
    }
  }

  predicate FeedFree(lines: seq<string>)
  {
    forall i :: 0 <= i < |lines| ==> '\n' !in lines[i]
  }

  lemma InlineFrameFree(name: string)
    requires '\n' !in name
    ensures FeedFree(InlineHead(name)) && FeedFree(InlineTail())
  {
    ClassLineFree(name, " extends BlackBox {");
  }

  lemma SplitFrameFree(name: string)
    requires '\n' !in name
    ensures FeedFree(SplitHead(name)) && FeedFree(SplitTail(name))
  {
    ClassLineFree(name, "_Bundle extends Bundle {");
    ClassLineFree(name, " extends BlackBox {");
    var io := "    val io = IO(new " + name + "_Bundle)";
    forall k | 0 <= k < |io|
      ensures io[k] != '\n'
    {
      if 20 <= k < 20 + |name| {
        assert io[k] == name[k - 20];
      }
    }
  }

  /** The inline source, line by line: the import, a blank line, the
      black box opening its anonymous bundle, one line per port, and the
      closing lines, when no name, direction or width holds a line
      feed. */
  lemma InlineLines(name: string, ports: seq<Port>)
    requires '\n' !in name
    requires forall i :: 0 <= i < |ports| ==> SingleLine(ports[i])
    ensures Split(ModuleToChisel(Module(name, ports), false), '\n') == InlineHead(name) + FieldLines(ports) + InlineTail()
  {
    InlineFrameFree(name);
    FieldBlockLines(ports);
    SplitJoinAround(InlineHead(name), FieldBlock(ports), InlineTail());
  }

  /** The split source, line by line: the import, a blank line, the
      `<name>_Bundle` class holding one line per port, a blank line, and
      the black box instantiating that bundle, when no name, direction or
      width holds a line feed. */
  lemma SplitLines(name: string, ports: seq<Port>)
    requires '\n' !in name
    requires forall i :: 0 <= i < |ports| ==> SingleLine(ports[i])
    ensures Split(ModuleToChisel(Module(name, ports), true), '\n') == SplitHead(name) + FieldLines(ports) + SplitTail(name)
  {
    SplitFrameFree(name);
    FieldBlockLines(ports);
    SplitJoinAround(SplitHead(name), FieldBlock(ports), SplitTail(name));
  }

  /** Both layouts carry the same field block, so the choice of layout
      changes only the lines around the ports. */
  lemma LayoutsShareFields(m: Module)
    requires '\n' !in m.name
    requires forall i :: 0 <= i < |m.ports| ==> SingleLine(m.ports[i])
    ensures var inline := Split(ModuleToChisel(m, false), '\n');
            var split := Split(ModuleToChisel(m, true), '\n');
            && 4 + |FieldLines(m.ports)| <= |inline| && inline[4..4 + |FieldLines(m.ports)|] == FieldLines(m.ports)
            && 3 + |FieldLines(m.ports)| <= |split| && split[3..3 + |FieldLines(m.ports)|] == FieldLines(m.ports)
  {
    InlineLines(m.name, m.ports);
    SplitLines(m.name, m.ports);
  }

  /** One source per module, in module order. */
  function EmitModules(c: ChiselConverter, modules: seq<Module>): (r: seq<string>)
    ensures |r| == |modules|
    ensures forall i :: 0 <= i < |modules| ==> r[i] == ModuleToChisel(modules[i], c.splitBundle)
  {
    seq(|modules|, i requires 0 <= i < |modules| => ModuleToChisel(modules[i], c.splitBundle))
  }

  /** `emit_chisel_string`: the sources of the symbol table's modules. */
  function EmitChiselString(c: ChiselConverter, info: HdlInfo): (r: seq<string>)
    reads info
    ensures r == EmitModules(c, info.modules)
  {
    EmitModules(c, info.GetModules())
  }

  /** Emitting a merged module list emits each part in turn, so emitting
      after `merge_info` appends the merged table's sources. */
  lemma EmitConcat(c: ChiselConverter, a: seq<Module>, b: seq<Module>)
    ensures EmitModules(c, a + b) == EmitModules(c, a) + EmitModules(c, b)
  {
    var l, r := EmitModules(c, a + b), EmitModules(c, a) + EmitModules(c, b);
    assert |l| == |r|;
    forall i | 0 <= i < |l|
      ensures l[i] == r[i]
    {
      if i < |a| {
        assert (a + b)[i] == a[i];
      } else {
        assert (a + b)[i] == b[i - |a|];
      }
    }
  }
}
