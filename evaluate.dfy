/**
 * The evaluators: `getEvaluatedValue` turns one argument node into a
 * dependency string, and `getElementValues` turns a declared-dependencies
 * argument (an array of identifiers or a single one) into a list of them.
 */
module Evaluate {
  import opened Ast
  import opened Interfaces

  /**
   * `getEvaluatedValue`: a literal yields its text, a call expression (a
   * dependency computed at run time) yields the empty string, and any other
   * node yields the source text the code generator regenerates for it.
   */
  function GetEvaluatedValue(env: Env, n: Node): string
  {
    match n
    case Literal(value) => value
    case CallExpression(_, _) => ""
    case _ => env.generate(n)
  }

  /**
   * The code generator is only a fallback: a literal yields its own value and
   * a call expression the empty string, whatever the generator would print.
   */
  lemma GeneratorOnlyFallback(env: Env, n: Node)
    ensures n.Literal? ==> GetEvaluatedValue(env, n) == n.value
    ensures n.CallExpression? ==> GetEvaluatedValue(env, n) == ""
    ensures n.Literal? || n.CallExpression? <==>
      forall g: Node -> string :: GetEvaluatedValue(env.(generate := g), n) == GetEvaluatedValue(env, n)
  {
    if !n.Literal? && !n.CallExpression? {
      var g: Node -> string := (m: Node) => env.generate(m) + "'";
      assert GetEvaluatedValue(env.(generate := g), n) != GetEvaluatedValue(env, n) by {
        assert |GetEvaluatedValue(env.(generate := g), n)| == |env.generate(n)| + 1;
      }
    }
  }

  /** `elements.map(getEvaluatedValue)`. */
  function EvaluateAll(env: Env, elems: seq<Node>): seq<string>
  {
    if elems == [] then [] else [GetEvaluatedValue(env, elems[0])] + EvaluateAll(env, elems[1..])
  }

  /** The map evaluates each element in place. */
  lemma {:induction false} EvaluateAllAt(env: Env, elems: seq<Node>)
    ensures |EvaluateAll(env, elems)| == |elems|
    ensures forall i :: 0 <= i < |elems| ==> EvaluateAll(env, elems)[i] == GetEvaluatedValue(env, elems[i])
  {
    if elems != [] {
      EvaluateAllAt(env, elems[1..]);
    }
  }

  /** `.filter(Boolean)` on a list of strings. */
  function KeepTruthy(s: seq<string>): seq<string>
  {
    if s == [] then [] else (if s[0] == "" then [] else [s[0]]) + KeepTruthy(s[1..])
  }

  /**
   * The filter drops exactly the empty strings and keeps every other string
   * as often as it occurs.
   */
  lemma {:induction false} KeepTruthyMultiset(s: seq<string>)
    ensures multiset(KeepTruthy(s)) == multiset(s)["" := 0]
    ensures |KeepTruthy(s)| <= |s|
  {
    if s != [] {
      assert s == [s[0]] + s[1..];
      KeepTruthyMultiset(s[1..]);
    }
  }

  /** A string survives the filter exactly when it is non-empty and occurs in the list. */
  lemma {:induction false} KeepTruthyMember(s: seq<string>, x: string)
    ensures x in KeepTruthy(s) <==> x != "" && x in s
  {
    if s != [] {
      KeepTruthyMember(s[1..], x);
      assert s == [s[0]] + s[1..];
    }
  }

  /** The filter keeps order: filtering a concatenation filters each part. */
  lemma {:induction false} KeepTruthyAppend(a: seq<string>, b: seq<string>)
    ensures KeepTruthy(a + b) == KeepTruthy(a) + KeepTruthy(b)
  {
    if a == [] {
      assert a + b == b;
    } else {
      assert (a + b)[0] == a[0] && (a + b)[1..] == a[1..] + b;
      KeepTruthyAppend(a[1..], b);
    }
  }

  /** The filter changes a list exactly when the list holds an empty string. */
  lemma {:induction false} KeepTruthyIdentity(s: seq<string>)
    ensures KeepTruthy(s) == s <==> "" !in s
  {
    if s != [] {
      KeepTruthyIdentity(s[1..]);
      KeepTruthyMultiset(s[1..]);
    }
  }

  /**
   * `getElementValues`: for an array expression, the evaluated elements in
   * array order with the empty strings removed; for any other node, its one
   * evaluated value, unfiltered.
   */
  function GetElementValues(env: Env, n: Node): seq<string>
  {
    if n.ArrayExpression? then KeepTruthy(EvaluateAll(env, n.elements)) else [GetEvaluatedValue(env, n)]
  }

  /**
   * What `getElementValues` yields: for an array, no empty string and at most
   * one value per element; for any other node exactly one value, which may be
   * the empty string.
   */
  lemma ElementValuesMeaning(env: Env, n: Node)
    ensures n.ArrayExpression? ==> |GetElementValues(env, n)| <= |n.elements| && "" !in GetElementValues(env, n)
    ensures !n.ArrayExpression? ==> |GetElementValues(env, n)| == 1 && GetElementValues(env, n)[0] == GetEvaluatedValue(env, n)
  {
    if n.ArrayExpression? {
      var r := GetElementValues(env, n);
      EvaluateAllAt(env, n.elements);
      KeepTruthyMultiset(EvaluateAll(env, n.elements));
      assert multiset(r)[""] == 0;
    }
  }

  /** For an array, the values are exactly the non-empty values of its elements. */
  lemma ElementValuesMember(env: Env, n: Node, x: string)
    requires n.ArrayExpression?
    ensures x in GetElementValues(env, n) <==>
      x != "" && exists i :: 0 <= i < |n.elements| && GetEvaluatedValue(env, n.elements[i]) == x
  {
    var elems := n.elements;
    var values := EvaluateAll(env, elems);
    KeepTruthyMember(values, x);
    EvaluateAllAt(env, elems);
    if x in values {
      var i :| 0 <= i < |values| && values[i] == x;
    }
    if exists i :: 0 <= i < |elems| && GetEvaluatedValue(env, elems[i]) == x {
      var i :| 0 <= i < |elems| && GetEvaluatedValue(env, elems[i]) == x;
      assert values[i] == x;
    }
  }

  /** Evaluating a concatenation evaluates each part. */
  lemma {:induction false} EvaluateAllAppend(env: Env, a: seq<Node>, b: seq<Node>)
    ensures EvaluateAll(env, a + b) == EvaluateAll(env, a) + EvaluateAll(env, b)
  {
    if a == [] {
      assert a + b == b;
    } else {
      assert (a + b)[0] == a[0] && (a + b)[1..] == a[1..] + b;
      EvaluateAllAppend(env, a[1..], b);
    }
  }

  /** Array order is kept: the values of a split array are the values of the parts, joined. */
  lemma {:induction false} ElementValuesAppend(env: Env, a: seq<Node>, b: seq<Node>)
    ensures GetElementValues(env, ArrayExpression(a + b))
         == GetElementValues(env, ArrayExpression(a)) + GetElementValues(env, ArrayExpression(b))
  {
    EvaluateAllAppend(env, a, b);
    KeepTruthyAppend(EvaluateAll(env, a), EvaluateAll(env, b));
  }

  /**
   * A computed element (a call expression) of a dependency array is dropped:
   * inserting one anywhere leaves the element values unchanged.
   */
  lemma {:induction false} ComputedElementDropped(env: Env, a: seq<Node>, call: Node, b: seq<Node>)
    requires call.CallExpression?
    ensures GetElementValues(env, ArrayExpression(a + [call] + b))
         == GetElementValues(env, ArrayExpression(a + b))
  {
    var va, vb := EvaluateAll(env, a), EvaluateAll(env, b);
    calc {
      GetElementValues(env, ArrayExpression(a + [call] + b));
      KeepTruthy(EvaluateAll(env, a + [call] + b));
      { EvaluateAllAppend(env, a + [call], b); EvaluateAllAppend(env, a, [call]); }
      KeepTruthy(va + EvaluateAll(env, [call]) + vb);
      { assert EvaluateAll(env, [call]) == [""]; }
      KeepTruthy(va + [""] + vb);
      { KeepTruthyAppend(va + [""], vb); KeepTruthyAppend(va, [""]); }
      KeepTruthy(va) + KeepTruthy([""]) + KeepTruthy(vb);
      { assert KeepTruthy([""]) == []; }
      KeepTruthy(va) + KeepTruthy(vb);
      { KeepTruthyAppend(va, vb); }
      KeepTruthy(va + vb);
      { EvaluateAllAppend(env, a, b); }
      GetElementValues(env, ArrayExpression(a + b));
    }
  }

  /** An array of literals with non-empty values yields exactly those values, in order. */
  lemma {:induction false} LiteralArrayValues(env: Env, elems: seq<Node>)
    requires forall i :: 0 <= i < |elems| ==> elems[i].Literal? && elems[i].value != ""
    ensures GetElementValues(env, ArrayExpression(elems)) == seq(|elems|, i requires 0 <= i < |elems| => elems[i].value)
  {
    var values := EvaluateAll(env, elems);
    EvaluateAllAt(env, elems);
    assert "" !in values by {
      forall i | 0 <= i < |values| ensures values[i] != "" {
        assert values[i] == elems[i].value;
      }
    }
    KeepTruthyIdentity(values);
  }
}
