/** Integer evaluation of range bounds in src/sv_parse.rs: the text rewriting
    done before evaluation (`preprocess_for_rhai`), the scope-building loop
    of `eval_int_expr`, and the two functions `clog2` and `pow` that the
    source registers with its expression engine, modelled on their own. The
    expression engine is uninterpreted here, so nothing ties its results
    to `Clog2` or `Pow`. */
module SvEval {
  import opened Text
  import opened SvNumber

  /** `preprocess_for_rhai`: literals normalised, `**` rewritten to the infix
      call `` `pow` ``, `$clog2` rewritten to `clog2`. */
  function Preprocess(input: string): string
  {
    ReplaceAll(ReplaceAll(ParseSvNumber(input), "**", " `pow` "), "$clog2", "clog2")
  }

  /** No two consecutive characters are both `*`. */
  predicate NoStarPair(s: string)
  {
    forall i :: 0 <= i < |s| - 1 ==> !(s[i] == '*' && s[i + 1] == '*')
  }

  /** A pattern absent from the text as a first character cannot occur. */
  lemma AbsentWithoutFirst(s: string, pat: string)
    requires |pat| > 0 && pat[0] !in s
    ensures Absent(s, pat)
  {
    forall i | 0 <= i <= |s|
      ensures !OccursAt(s, pat, i)
    {
      if i + |pat| <= |s| {
        assert s[i..i + |pat|][0] == s[i];
      }
    }
  }

  /** A replacement result starts either with the text's first character or
      with the replacement's. */
  lemma ReplaceAllFirst(s: string, pat: string, rep: string)
    requires |pat| > 0 && |s| > 0 && |rep| > 0
    ensures |ReplaceAll(s, pat, rep)| > 0
    ensures ReplaceAll(s, pat, rep)[0] == s[0] || ReplaceAll(s, pat, rep)[0] == rep[0]
  {
  }

  /** Two texts without a star pair, not meeting in one, concatenate to a
      text without a star pair. */
  lemma ConcatNoStarPair(a: string, b: string)
    requires NoStarPair(a) && NoStarPair(b)
    requires a == [] || b == [] || a[|a| - 1] != '*' || b[0] != '*'
    ensures NoStarPair(a + b)
  {
    var ab := a + b;
    forall i | 0 <= i < |ab| - 1
      ensures !(ab[i] == '*' && ab[i + 1] == '*')
    {
      if i + 1 < |a| {
        assert ab[i] == a[i] && ab[i + 1] == a[i + 1];
      } else if i >= |a| {
        assert ab[i] == b[i - |a|] && ab[i + 1] == b[i - |a| + 1];
      }
    }
  }

  /** Rewriting `**` leaves no two consecutive stars: every star pair is a
      match, and the replacement holds no star. */
  lemma {:induction false} PowRewriteNoStarPair(s: string)
    ensures NoStarPair(ReplaceAll(s, "**", " `pow` "))
    decreases |s|
  {
    var rep := " `pow` ";
    if |s| >= 2 {
      var rest := if s[..2] == "**" then s[2..] else s[1..];
      PowRewriteNoStarPair(rest);
      var tail := ReplaceAll(rest, "**", rep);
      if s[..2] == "**" {
        assert rep[|rep| - 1] == ' ';
        ConcatNoStarPair(rep, tail);
      } else {
        if s[0] == '*' {
          assert s[1] != '*' by {
            assert s[..2] == [s[0], s[1]];
          }
          ReplaceAllFirst(rest, "**", rep);
        }
        ConcatNoStarPair([s[0]], tail);
      }
    }
  }

  /** The suffix of a text without a star pair has none either. */
  lemma SuffixNoStarPair(s: string, k: nat)
    requires NoStarPair(s) && k <= |s|
    ensures NoStarPair(s[k..])
  {
    var t := s[k..];
    forall i | 0 <= i < |t| - 1
      ensures !(t[i] == '*' && t[i + 1] == '*')
    {
      assert t[i] == s[k + i] && t[i + 1] == s[k + i + 1];
    }
  }

  /** Rewriting `$clog2` to `clog2` creates no star pair. */
  lemma {:induction false} ClogRewriteNoStarPair(s: string)
    requires NoStarPair(s)
    ensures NoStarPair(ReplaceAll(s, "$clog2", "clog2"))
    decreases |s|
  {
    var rep := "clog2";
    if |s| >= 6 {
      var k := if s[..6] == "$clog2" then 6 else 1;
      SuffixNoStarPair(s, k);
      ClogRewriteNoStarPair(s[k..]);
      var tail := ReplaceAll(s[k..], "$clog2", rep);
      if k == 6 {
        assert rep[|rep| - 1] == '2';
        ConcatNoStarPair(rep, tail);
      } else {
        if s[0] == '*' {
          assert s[1] != '*';
          ReplaceAllFirst(s[1..], "$clog2", rep);
        }
        ConcatNoStarPair([s[0]], tail);
      }
    }
  }

  /** The evaluator never sees `**`: no star pair survives preprocessing. */
  lemma PreprocessNoStarPair(input: string)
    ensures NoStarPair(Preprocess(input))
  {
    var s := ReplaceAll(ParseSvNumber(input), "**", " `pow` ");
    PowRewriteNoStarPair(ParseSvNumber(input));
    ClogRewriteNoStarPair(s);
  }

  /** Text holding no quote, star or dollar sign reaches the evaluator
      unchanged. */
  lemma PreprocessPlain(input: string)
    requires '\'' !in input && '*' !in input && '$' !in input
    ensures Preprocess(input) == input
  {
    NoQuoteUnchanged(input);
    AbsentWithoutFirst(input, "**");
    ReplaceAllAbsent(input, "**", " `pow` ");
    AbsentWithoutFirst(input, "$clog2");
    ReplaceAllAbsent(input, "$clog2", "clog2");
  }

  /** Text without quote, star or dollar sign around it, `**` becomes the
      infix call `` `pow` `` and nothing else changes. */
  lemma PreprocessPow(a: string, b: string)
    requires '\'' !in a && '*' !in a && '$' !in a
    requires '\'' !in b && '*' !in b && '$' !in b
    ensures Preprocess(a + "**" + b) == a + " `pow` " + b
  {
    var input := a + "**" + b;
    assert '\'' !in "**";
    NoQuoteUnchanged(input);
    ReplaceAllOnce(a, b, "**", " `pow` ");
    var s := a + " `pow` " + b;
    assert '$' !in " `pow` ";
    ReplaceAllWithoutFirst(s, "$clog2", "clog2");
  }

  /** Text without quote, star or dollar sign around it, `$clog2` becomes
      `clog2` and nothing else changes. */
  lemma PreprocessClog(a: string, b: string)
    requires '\'' !in a && '*' !in a && '$' !in a
    requires '\'' !in b && '*' !in b && '$' !in b
    ensures Preprocess(a + "$clog2" + b) == a + "clog2" + b
  {
    var input := a + "$clog2" + b;
    assert '\'' !in "$clog2" && '*' !in "$clog2";
    NoQuoteUnchanged(input);
    ReplaceAllWithoutFirst(input, "**", " `pow` ");
    ReplaceAllOnce(a, b, "$clog2", "clog2");
  }

  /** Two to the power `k`. */
  function Pow2(k: nat): (r: nat)
    ensures r >= 1
  {
    if k == 0 then 1 else 2 * Pow2(k - 1)
  }

  lemma {:induction false} Pow2Increasing(j: nat, k: nat)
    requires j < k
    ensures Pow2(j) < Pow2(k)
    decreases k
  {
    if j < k - 1 {
      Pow2Increasing(j, k - 1);
    }
  }

  /** The `clog2` builtin: 0 up to 1, otherwise the least `r` with
      `n <= 2^r`. */
  function Clog2(n: int): (r: nat)
    requires n <= 0x8000_0000
    ensures n <= 1 ==> r == 0
    ensures n > 1 ==> r >= 1 && Pow2(r - 1) < n <= Pow2(r)
    decreases n
  {
    if n <= 1 then 0 else 1 + Clog2((n + 1) / 2)
  }

  /** `clog2` of a power of two is its exponent. */
  lemma Clog2OfPow2(n: int, k: nat)
    requires n <= 0x8000_0000 && n == Pow2(k)
    ensures Clog2(n) == k
  {
    var r := Clog2(n);
    if r < k {
      Pow2Increasing(r, k);
    } else if r > k + 1 {
      Pow2Increasing(k, r - 1);
    }
  }

  lemma Pow2Bound(k: nat)
    requires k <= 31
    ensures Pow2(k) <= 0x8000_0000
  {
    assert Pow2(10) == 1024;
    assert Pow2(20) == 1024 * 1024;
    assert Pow2(31) == 0x8000_0000;
    if k < 31 {
      Pow2Increasing(k, 31);
    }
  }

  /** `base` to the `e`-th power. */
  function Power(base: int, e: nat): int
  {
    if e == 0 then 1 else base * Power(base, e - 1)
  }

  /** The `pow` builtin: 0 for a negative exponent, otherwise `base` to the
      exponent cast to u32, that is, its low 32 bits. */
  function Pow(base: int, exp: int): (r: int)
    ensures exp < 0 ==> r == 0
    ensures 0 <= exp < 0x1_0000_0000 ==> r == Power(base, exp)
  {
    if exp < 0 then 0 else Power(base, exp % 0x1_0000_0000)
  }

  /** An exponent of 2^32 or more wraps around before the power is taken. */
  lemma PowWraps(base: int, exp: int)
    requires exp >= 0
    ensures Pow(base, exp + 0x1_0000_0000) == Pow(base, exp)
  {
    assert (exp + 0x1_0000_0000) % 0x1_0000_0000 == exp % 0x1_0000_0000;
  }

  lemma {:induction false} PowerOfTwo(k: nat)
    ensures Power(2, k) == Pow2(k)
    decreases k
  {
    if k > 0 {
      PowerOfTwo(k - 1);
    }
  }

  /** `clog2(pow(2, k))` is `k`, for the exponents where both builtins agree
      with integer arithmetic. */
  lemma Clog2InvertsPow(k: nat)
    requires k <= 31
    ensures Pow(2, k) == Pow2(k) <= 0x8000_0000 && Clog2(Pow(2, k)) == k
  {
    PowerOfTwo(k);
    Pow2Bound(k);
    Clog2OfPow2(Pow2(k), k);
  }

  /** Variable bindings visible to the evaluator, oldest first. */
  type Scope = seq<(string, int)>

  /** The expression evaluator, left uninterpreted: `eval` maps the bindings
      in scope and a preprocessed text to a value or an error; `order` lists
      the keys of a macro map in its iteration order, which is unspecified. */
  datatype Engine = Engine(eval: (Scope, string) -> Option<int>, order: map<string, string> -> seq<string>)

  /** One turn of the scope-building loop: the macro's preprocessed value is
      evaluated against the scope so far and bound under its name when it
      evaluates; otherwise the scope is kept. */
  function Bind(engine: Engine, defines: map<string, string>, scope: Scope, key: string): (r: Scope)
    ensures r == scope || (key in defines && |r| == |scope| + 1 && r[..|scope|] == scope && r[|scope|].0 == key)
  {
    if key !in defines then scope
    else match engine.eval(scope, Preprocess(defines[key]))
      case Some(v) => scope + [(key, v)]
      case None => scope
  }

  /** The scope after visiting `keys` in order, starting from `scope`. */
  function Inject(engine: Engine, defines: map<string, string>, scope: Scope, keys: seq<string>): Scope
    decreases |keys|
  {
    if keys == [] then scope else Inject(engine, defines, Bind(engine, defines, scope, keys[0]), keys[1..])
  }

  /** The value `eval_int_expr` computes: the preprocessed input evaluated
      against the scope built from every macro in iteration order. */
  function EvalInt(engine: Engine, input: string, defines: map<string, string>): Option<int>
  {
    engine.eval(Inject(engine, defines, [], engine.order(defines)), Preprocess(input))
  }

  /** `eval_int_expr`: build the scope from the macro map in its iteration
      order, then evaluate the preprocessed input against it. */
  method EvalIntExpr(engine: Engine, input: string, defines: map<string, string>) returns (r: Option<int>)
    ensures r == EvalInt(engine, input, defines)
  {
    var keys := engine.order(defines);
    var scope: Scope := [];
    var i := 0;
    while i < |keys|
      invariant 0 <= i <= |keys|
      invariant Inject(engine, defines, scope, keys[i..]) == Inject(engine, defines, [], keys)
    {
      var key := keys[i];
      if key in defines {
        var cleanVal := Preprocess(defines[key]);
        var v := engine.eval(scope, cleanVal);
        if v.Some? {
          scope := scope + [(key, v.value)];
        }
      }
      assert keys[i..][1..] == keys[i + 1..];
      i := i + 1;
    }
    r := engine.eval(scope, Preprocess(input));
  }

  /** Visiting more keys only extends the scope, and every added binding is
      named by a visited key that the macro map holds. */
  lemma {:induction false} InjectExtends(engine: Engine, defines: map<string, string>, scope: Scope, keys: seq<string>)
    ensures var r := Inject(engine, defines, scope, keys);
      && |scope| <= |r| <= |scope| + |keys| && r[..|scope|] == scope
      && forall j :: |scope| <= j < |r| ==> r[j].0 in keys && r[j].0 in defines
    decreases |keys|
  {
    if keys != [] {
      var next := Bind(engine, defines, scope, keys[0]);
      InjectExtends(engine, defines, next, keys[1..]);
      var r := Inject(engine, defines, next, keys[1..]);
      assert r[..|next|][..|scope|] == r[..|scope|];
      forall j | |scope| <= j < |r|
        ensures r[j].0 in keys && r[j].0 in defines
      {
        if j < |next| {
          assert r[j] == next[j];
        } else {
          assert r[j].0 in keys[1..];
        }
      }
    }
  }

  /** Visiting `a` then `b` is visiting `a + b`. */
  lemma {:induction false} InjectSplit(engine: Engine, defines: map<string, string>, scope: Scope, a: seq<string>, b: seq<string>)
    ensures Inject(engine, defines, scope, a + b) == Inject(engine, defines, Inject(engine, defines, scope, a), b)
    decreases |a|
  {
    if a == [] {
      assert a + b == b;
    } else {
      assert (a + b)[0] == a[0] && (a + b)[1..] == a[1..] + b;
      InjectSplit(engine, defines, Bind(engine, defines, scope, a[0]), a[1..], b);
    }
  }

  predicate Distinct(keys: seq<string>)
  {
    forall i, j :: 0 <= i < j < |keys| ==> keys[i] != keys[j]
  }

  /** Bound names of the scope built from `keys`. */
  predicate Binds(scope: Scope, name: string, value: int)
  {
    exists j :: 0 <= j < |scope| && scope[j] == (name, value)
  }

  /** A macro is bound in the final scope exactly when its value evaluates
      against the scope built from the macros visited before it, and then
      under that value; a macro whose value fails to evaluate is skipped. */
  lemma MacroBoundIff(engine: Engine, defines: map<string, string>, keys: seq<string>, i: nat)
    requires Distinct(keys) && i < |keys| && keys[i] in defines
    ensures var before := Inject(engine, defines, [], keys[..i]);
            var final := Inject(engine, defines, [], keys);
            match engine.eval(before, Preprocess(defines[keys[i]]))
            case Some(v) => Binds(final, keys[i], v)
            case None => forall j :: 0 <= j < |final| ==> final[j].0 != keys[i]
  {
    var key := keys[i];
    var before := Inject(engine, defines, [], keys[..i]);
    var next := Bind(engine, defines, before, key);
    var final := Inject(engine, defines, [], keys);
    assert keys == keys[..i] + keys[i..];
    InjectSplit(engine, defines, [], keys[..i], keys[i..]);
    assert keys[i..][0] == key && keys[i..][1..] == keys[i + 1..];
    assert final == Inject(engine, defines, next, keys[i + 1..]);
    InjectExtends(engine, defines, next, keys[i + 1..]);
    InjectExtends(engine, defines, [], keys[..i]);
    match engine.eval(before, Preprocess(defines[key]))
    case Some(v) =>
      assert final[|before|] == next[|before|];
    case None =>
      forall j | 0 <= j < |final|
        ensures final[j].0 != key
      {
        if j < |before| {
          assert final[j] == before[j];
          assert before[j].0 in keys[..i];
        } else {
          assert final[j].0 in keys[i + 1..];
        }
      }
  }

  /** Only macros of the map are bound, and no more bindings than visited
      keys. */
  lemma ScopeFromMacros(engine: Engine, defines: map<string, string>)
    ensures var scope := Inject(engine, defines, [], engine.order(defines));
      && |scope| <= |engine.order(defines)|
      && forall j :: 0 <= j < |scope| ==> scope[j].0 in defines
  {
    InjectExtends(engine, defines, [], engine.order(defines));
  }

  /** What Rust's `HashMap` iteration promises of `order`: every key of the
      map exactly once, and nothing else. */
  ghost predicate ListsKeys(engine: Engine)
  {
    forall d: map<string, string> ::
      Distinct(engine.order(d)) && forall k :: k in engine.order(d) <==> k in d
  }

  /** Names bound in a scope, each once. */
  predicate DistinctNames(scope: Scope)
  {
    forall i, j :: 0 <= i < j < |scope| ==> scope[i].0 != scope[j].0
  }

  /** Visiting distinct keys not yet bound keeps every name bound once. */
  lemma {:induction false} InjectDistinct(engine: Engine, defines: map<string, string>, scope: Scope, keys: seq<string>)
    requires Distinct(keys) && DistinctNames(scope)
    requires forall j :: 0 <= j < |scope| ==> scope[j].0 !in keys
    ensures DistinctNames(Inject(engine, defines, scope, keys))
    decreases |keys|
  {
    if keys != [] {
      var next := Bind(engine, defines, scope, keys[0]);
      forall j | 0 <= j < |next|
        ensures next[j].0 !in keys[1..]
      {
        if j < |scope| {
          assert next[j] == scope[j];
        } else {
          assert next[j].0 == keys[0];
        }
      }
      InjectDistinct(engine, defines, next, keys[1..]);
    }
  }

  /** With an order that lists each key once, the scope binds every name at
      most once. */
  lemma ScopeNamesDistinct(engine: Engine, defines: map<string, string>)
    requires ListsKeys(engine)
    ensures DistinctNames(Inject(engine, defines, [], engine.order(defines)))
  {
    InjectDistinct(engine, defines, [], engine.order(defines));
  }

  /** With an order that lists each key once, every macro of the map is
      visited at some turn of the loop, and is bound exactly when its value
      evaluates against the scope built before that turn. */
  lemma MacroBoundInOrder(engine: Engine, defines: map<string, string>, key: string)
    requires ListsKeys(engine) && key in defines
    ensures var keys := engine.order(defines);
            var final := Inject(engine, defines, [], keys);
            exists i :: 0 <= i < |keys| && keys[i] == key
              && match engine.eval(Inject(engine, defines, [], keys[..i]), Preprocess(defines[key]))
                 case Some(v) => Binds(final, key, v)
                 case None => forall j :: 0 <= j < |final| ==> final[j].0 != key
  {
    var keys := engine.order(defines);
    assert key in keys;
    var i :| 0 <= i < |keys| && keys[i] == key;
    MacroBoundIff(engine, defines, keys, i);
  }
}
