/** Replacing the parameter markers of a query by the rendered parameters. */
module Substitution {

  import opened Text

  datatype Rc = Success | SuccessWithInfo | NeedData | Error

  predicate Succeeded(rc: Rc) {
    rc == Success || rc == SuccessWithInfo
  }

  /** What rendering a parameter yields; one that fails may already have put text into the statement's buffer. */
  datatype Param = Unbound | Failing(partial: string) | Rendered(text: string, info: bool)

  /** The positions of the markers, as the parser finds them. */
  predicate Markers(query: string, pos: seq<nat>) {
    && (forall i | 0 <= i < |pos| :: pos[i] < |query| && query[pos[i]] == '?')
    && forall i, j | 0 <= i < j < |pos| :: pos[i] < pos[j]
  }

  function Emitted(param: Param): string {
    match param
    case Unbound => ""
    case Failing(partial) => partial
    case Rendered(text, _) => text
  }

  function Texts(params: seq<Param>): seq<string> {
    seq(|params|, i requires 0 <= i < |params| => Emitted(params[i]))
  }

  /** The first parameter that cannot be rendered, or their number. */
  function FirstBad(params: seq<Param>): nat {
    if params == [] || !params[0].Rendered? then 0 else 1 + FirstBad(params[1..])
  }

  lemma {:induction false} FirstBadIsFirst(params: seq<Param>)
    ensures FirstBad(params) <= |params|
    ensures forall j | 0 <= j < FirstBad(params) :: params[j].Rendered?
    ensures FirstBad(params) < |params| ==> !params[FirstBad(params)].Rendered?
  {
    if params != [] && params[0].Rendered? {
      FirstBadIsFirst(params[1..]);
    }
  }

  function RenderRc(params: seq<Param>): Rc {
    if FirstBad(params) < |params| then Error
    else if HasInfo(params, |params|) then SuccessWithInfo
    else Success
  }

  /** One of the first n parameters was rendered with a warning. */
  predicate HasInfo(params: seq<Param>, n: nat)
    requires n <= |params|
  {
    n > 0 && (HasInfo(params, n - 1) || (params[n - 1].Rendered? && params[n - 1].info))
  }

  lemma {:induction false} InfoMeans(params: seq<Param>, n: nat)
    requires n <= |params|
    ensures HasInfo(params, n) <==> exists i :: 0 <= i < n && params[i].Rendered? && params[i].info
  {
    if n > 0 {
      InfoMeans(params, n - 1);
    }
  }

  /**
   Rendering fails exactly when some parameter cannot be rendered, and otherwise reports a warning exactly when one of
   them does; each rendered parameter contributes its own text.
   */
  lemma RenderingMeans(params: seq<Param>)
    ensures RenderRc(params) == Error <==> exists i :: 0 <= i < |params| && !params[i].Rendered?
    ensures RenderRc(params) == SuccessWithInfo <==>
              && (forall i | 0 <= i < |params| :: params[i].Rendered?)
              && exists i :: 0 <= i < |params| && params[i].info
    ensures RenderRc(params) == Success <==> forall i | 0 <= i < |params| :: params[i].Rendered? && !params[i].info
    ensures |Texts(params)| == |params|
    ensures forall i | 0 <= i < |params| && params[i].Rendered? :: Texts(params)[i] == params[i].text
  {
    FirstBadIsFirst(params);
    InfoMeans(params, |params|);
  }

  // ----- the query, character by character

  /** The query from position k and marker i on: a marker becomes its text, every other character stays. */
  function Substitute(query: string, pos: seq<nat>, texts: seq<string>, k: nat, i: nat): string
    requires k <= |query| && |texts| == |pos|
    decreases |query| - k
  {
    if k == |query| then ""
    else if i < |pos| && pos[i] == k then texts[i] + Substitute(query, pos, texts, k + 1, i + 1)
    else [query[k]] + Substitute(query, pos, texts, k + 1, i)
  }

  function Substituted(query: string, pos: seq<nat>, texts: seq<string>): string
    requires |texts| == |pos|
  {
    Substitute(query, pos, texts, 0, 0)
  }

  // ----- the query, marker by marker

  function Start(pos: seq<nat>, n: nat): nat
    requires n <= |pos|
  {
    if n == 0 then 0 else pos[n - 1] + 1
  }

  lemma StartIsBefore(query: string, pos: seq<nat>, n: nat)
    requires Markers(query, pos) && n <= |pos|
    ensures Start(pos, n) <= |query| && (n < |pos| ==> Start(pos, n) <= pos[n])
  {
  }

  function Between(query: string, from: nat, to: nat): string {
    if from <= to <= |query| then query[from..to] else ""
  }

  /** The text up to the n-th marker, which is itself included. */
  function Filled(query: string, pos: seq<nat>, texts: seq<string>, n: nat): string
    requires n <= |pos| == |texts|
  {
    if n == 0 then ""
    else Filled(query, pos, texts, n - 1) + Between(query, Start(pos, n - 1), pos[n - 1]) + texts[n - 1]
  }

  /** What a failing row leaves behind: everything up to the parameter that failed, and its partial text. */
  function Residue(query: string, pos: seq<nat>, params: seq<Param>): string
    requires |params| == |pos|
  {
    var i := FirstBad(params);
    if i >= |params| then ""
    else if params[i].Failing? then
      Filled(query, pos, Texts(params), i) + Between(query, Start(pos, i), pos[i]) + Emitted(params[i])
    else Filled(query, pos, Texts(params), i)
  }

  lemma FirstBadAt(params: seq<Param>, i: nat)
    requires i < |params| && i <= FirstBad(params)
    ensures if params[i].Rendered? then i + 1 <= FirstBad(params) else i == FirstBad(params)
  {
    FirstBadIsFirst(params);
  }

  lemma {:induction false} UpToMarker(query: string, pos: seq<nat>, texts: seq<string>, k: nat, i: nat)
    requires Markers(query, pos) && |texts| == |pos| && i < |pos| && k <= pos[i]
    ensures Substitute(query, pos, texts, k, i) ==
            Between(query, k, pos[i]) + texts[i] + Substitute(query, pos, texts, pos[i] + 1, i + 1)
    decreases pos[i] - k
  {
    var rest := Substitute(query, pos, texts, pos[i] + 1, i + 1);
    if k < pos[i] {
      UpToMarker(query, pos, texts, k + 1, i);
      assert Between(query, k, pos[i]) == [query[k]] + Between(query, k + 1, pos[i]);
      RegroupAll([query[k]], Between(query, k + 1, pos[i]), texts[i], rest);
    } else {
      assert Between(query, k, pos[i]) == "";
    }
  }

  lemma {:induction false} AfterLastMarker(query: string, pos: seq<nat>, texts: seq<string>, k: nat)
    requires |texts| == |pos| && k <= |query|
    ensures Substitute(query, pos, texts, k, |pos|) == query[k..]
    decreases |query| - k
  {
    if k < |query| {
      AfterLastMarker(query, pos, texts, k + 1);
      assert query[k..] == [query[k]] + query[k + 1..];
    }
  }

  /** Both readings give the same text, at whichever marker they are cut. */
  lemma {:induction false} FilledThenSubstituted(query: string, pos: seq<nat>, texts: seq<string>, n: nat)
    requires Markers(query, pos) && n <= |pos| == |texts|
    ensures Start(pos, n) <= |query|
    ensures Substituted(query, pos, texts) ==
            Filled(query, pos, texts, n) + Substitute(query, pos, texts, Start(pos, n), n)
  {
    if n > 0 {
      FilledThenSubstituted(query, pos, texts, n - 1);
      StartIsBefore(query, pos, n - 1);
      UpToMarker(query, pos, texts, Start(pos, n - 1), n - 1);
      var before, gap := Filled(query, pos, texts, n - 1), Between(query, Start(pos, n - 1), pos[n - 1]);
      var rest := Substitute(query, pos, texts, Start(pos, n), n);
      RegroupAll(before, gap, texts[n - 1], rest);
    }
  }

  lemma WholeQuery(query: string, pos: seq<nat>, texts: seq<string>)
    requires Markers(query, pos) && |texts| == |pos|
    ensures Start(pos, |pos|) <= |query|
    ensures Filled(query, pos, texts, |pos|) + query[Start(pos, |pos|)..] == Substituted(query, pos, texts)
  {
    FilledThenSubstituted(query, pos, texts, |pos|);
    AfterLastMarker(query, pos, texts, Start(pos, |pos|));
  }

  lemma BetweenOfPrefix(query: string, from: nat, to: nat, end: nat)
    requires to <= end <= |query|
    ensures Between(query[..end], from, to) == Between(query, from, to)
  {
    if from <= to {
      assert query[..end][from..to] == query[from..to];
    }
  }

  /** What lies behind a marker does not matter for the text up to it. */
  lemma {:induction false} FilledOfPrefix(query: string, pos: seq<nat>, texts: seq<string>, i: nat, end: nat, n: nat)
    requires Markers(query, pos) && n <= i <= |pos| == |texts| && end <= |query| && (n > 0 ==> pos[n - 1] < end)
    ensures Filled(query, pos, texts, n) == Filled(query[..end], pos[..i], texts[..i], n)
  {
    if n > 0 {
      FilledOfPrefix(query, pos, texts, i, end, n - 1);
      BetweenOfPrefix(query, Start(pos, n - 1), pos[n - 1], end);
    }
  }

  lemma MarkersUpTo(query: string, pos: seq<nat>, i: nat, end: nat)
    requires Markers(query, pos) && i <= |pos| && Start(pos, i) <= end <= |query|
    ensures Markers(query[..end], pos[..i]) && Start(pos[..i], i) == Start(pos, i)
  {
    forall k | 0 <= k < i
      ensures pos[k] < end
    {
      assert k < i - 1 ==> pos[k] < pos[i - 1];
    }
  }

  /** The text up to a marker and on to a position before the next one is that part of the query substituted. */
  lemma FilledUpTo(query: string, pos: seq<nat>, texts: seq<string>, i: nat, end: nat)
    requires Markers(query, pos) && i <= |pos| == |texts| && Start(pos, i) <= end <= |query|
    ensures Filled(query, pos, texts, i) + Between(query, Start(pos, i), end) ==
            Substituted(query[..end], pos[..i], texts[..i])
  {
    MarkersUpTo(query, pos, i, end);
    FilledOfPrefix(query, pos, texts, i, end, i);
    WholeQuery(query[..end], pos[..i], texts[..i]);
    assert query[..end][Start(pos, i)..] == query[Start(pos, i)..end];
  }

  /**
   Without markers a query stays as it is, and its last marker is replaced by its text, whatever stands before and behind:
   this determines what substitution does.
   */
  lemma LastMarker(before: string, after: string, pos: seq<nat>, texts: seq<string>, text: string)
    requires Markers(before, pos) && |texts| == |pos|
    ensures Substituted(before, [], []) == before
    ensures Markers(before + "?" + after, pos + [|before|])
    ensures Substituted(before + "?" + after, pos + [|before|], texts + [text]) == Substituted(before, pos, texts) + text + after
  {
    var query, pos', texts', n := before + "?" + after, pos + [|before|], texts + [text], |pos|;
    AfterLastMarker(before, [], [], 0);
    assert before[0..] == before;
    WholeQuery(query, pos', texts');
    FilledUpTo(query, pos', texts', n, |before|);
    assert query[..|before|] == before && pos'[..n] == pos && texts'[..n] == texts;
    assert query[|before| + 1..] == after;
  }

  /**
   What is left behind by parameters of which the i-th is the first that cannot be rendered: the query substituted up to
   its marker and the partial text, or, when it is unbound, the query substituted up to the marker before.
   */
  lemma ResidueMeans(query: string, pos: seq<nat>, params: seq<Param>, i: nat)
    requires Markers(query, pos) && |params| == |pos| && i < |params| && !params[i].Rendered?
    requires forall j | 0 <= j < i :: params[j].Rendered?
    ensures Residue(query, pos, params) ==
            if params[i].Failing? then Substituted(query[..pos[i]], pos[..i], Texts(params)[..i]) + params[i].partial
            else Substituted(query[..Start(pos, i)], pos[..i], Texts(params)[..i])
  {
    FirstBadIsFirst(params);
    StartIsBefore(query, pos, i);
    if params[i].Failing? {
      FilledUpTo(query, pos, Texts(params), i, pos[i]);
    } else {
      FilledUpTo(query, pos, Texts(params), i, Start(pos, i));
      assert Filled(query, pos, Texts(params), i) + "" == Filled(query, pos, Texts(params), i);
    }
  }
}
