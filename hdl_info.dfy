/** The symbol table of src/hdl_info.rs: ports, macro definitions and
    modules as values, and `HdlInfo`, which owns two append-only lists and
    changes them in place. */
module Hdl {
  import opened Text

  /** A port: its name, direction keyword, type keyword, width (decimal
      text, or the range text when the width is symbolic) and the range
      text it came from, if any. */
  datatype Port = Port(name: string, direction: string, portType: string, width: string, widthExpression: Option<string>)

  /** A macro definition: its name and its replacement text. */
  datatype Define = Define(name: string, value: string)

  /** A module and its ports, in declaration order. */
  datatype Module = Module(name: string, ports: seq<Port>)

  /** The module list after a port is added to the last module; the list
      is unchanged when it is empty. */
  function WithPortOnLast(modules: seq<Module>, p: Port): (r: seq<Module>)
    ensures |r| == |modules|
    ensures forall i :: 0 <= i < |modules| - 1 ==> r[i] == modules[i]
    ensures |modules| > 0 ==>
      r[|r| - 1] == Module(modules[|modules| - 1].name, modules[|modules| - 1].ports + [p])
  {
    if modules == [] then []
    else
      var last := modules[|modules| - 1];
      modules[..|modules| - 1] + [Module(last.name, last.ports + [p])]
  }

  class HdlInfo {
    var defines: seq<Define>
    var modules: seq<Module>

    /** `HdlInfo::new`: no definitions and no modules. */
    constructor ()
      ensures defines == [] && modules == []
    {
      defines := [];
      modules := [];
    }

    /** `add_module`: one more module with the given name and no ports. */
    method AddModule(name: string)
      modifies this
      ensures modules == old(modules) + [Module(name, [])]
      ensures defines == old(defines)
    {
      modules := modules + [Module(name, [])];
    }

    /** `add_define`: one more definition, even when the name is already
      defined. */
    method AddDefine(name: string, value: string)
      modifies this
      ensures defines == old(defines) + [Define(name, value)]
      ensures modules == old(modules)
    {
      defines := defines + [Define(name, value)];
    }

    /** `add_ports`: one more port on the last module; every other module
      and every definition is unchanged, and nothing happens when there is
      no module. */
    method AddPorts(name: string, direction: string, portType: string, width: string, widthExpression: Option<string>)
      modifies this
      ensures modules == WithPortOnLast(old(modules), Port(name, direction, portType, width, widthExpression))
      ensures defines == old(defines)
    {
      if |modules| > 0 {
        var last := modules[|modules| - 1];
        var p := Port(name, direction, portType, width, widthExpression);
        modules := modules[..|modules| - 1] + [Module(last.name, last.ports + [p])];
      }
    }

    /** `get_modules`: the module list, read without change. */
    function GetModules(): (r: seq<Module>)
      reads this
      ensures r == modules
    {
      modules
    }

    /** `merge_info`: the definitions and then the modules of `info` are
      appended one by one, in their order; `info` is left as it is. */
    method MergeInfo(info: HdlInfo)
      requires info != this
      modifies this
      ensures defines == old(defines) + info.defines
      ensures modules == old(modules) + info.modules
      ensures info.defines == old(info.defines) && info.modules == old(info.modules)
    {
      var i := 0;
      while i < |info.defines|
        invariant 0 <= i <= |info.defines|
        invariant defines == old(defines) + info.defines[..i]
        invariant modules == old(modules)
      {
        defines := defines + [info.defines[i]];
        assert info.defines[..i + 1] == info.defines[..i] + [info.defines[i]];
        i := i + 1;
      }
      assert info.defines[..i] == info.defines;
      var j := 0;
      while j < |info.modules|
        invariant 0 <= j <= |info.modules|
        invariant defines == old(defines) + info.defines
        invariant modules == old(modules) + info.modules[..j]
      {
        modules := modules + [info.modules[j]];
        assert info.modules[..j + 1] == info.modules[..j] + [info.modules[j]];
        j := j + 1;
      }
      assert info.modules[..j] == info.modules;
    }
  }

  /** The ports of all modules, in module order. */
  function AllPorts(modules: seq<Module>): seq<Port>
  {
    if modules == [] then [] else AllPorts(modules[..|modules| - 1]) + modules[|modules| - 1].ports
  }

  /** Adding a port to the last module appends that port to the list of
      all ports; with no module, nothing is added. */
  lemma AllPortsWithPortOnLast(modules: seq<Module>, p: Port)
    ensures AllPorts(WithPortOnLast(modules, p)) == if modules == [] then [] else AllPorts(modules) + [p]
  {
    if modules != [] {
      var r := WithPortOnLast(modules, p);
      assert r[..|r| - 1] == modules[..|modules| - 1];
      var front := AllPorts(modules[..|modules| - 1]);
      var last := modules[|modules| - 1].ports;
      assert front + (last + [p]) == (front + last) + [p];
    }
  }

  /** The ports of a merged module list are the ports of the first list
      followed by those of the second. */
  lemma {:induction false} AllPortsConcat(a: seq<Module>, b: seq<Module>)
    ensures AllPorts(a + b) == AllPorts(a) + AllPorts(b)
    decreases |b|
  {
    if b == [] {
      assert a + b == a;
    } else {
      var front := b[..|b| - 1];
      AllPortsConcat(a, front);
      assert (a + b)[..|a + b| - 1] == a + front;
      var x, y, z := AllPorts(a), AllPorts(front), b[|b| - 1].ports;
      assert (x + y) + z == x + (y + z);
    }
  }
}
