/**
 * Query strings: how the widget writes `name=value&...` into the
 * authorization URL, and how `URLSearchParams` reads `window.location.search`
 * back (the application/x-www-form-urlencoded parser of the WHATWG URL
 * standard, without its percent-decoding).
 */
module Query {
  import opened Wrappers
  import opened Text

  datatype Param = Param(name: string, value: string)

  /** `name=value`. */
  function RenderParam(p: Param): string
  {
    p.name + "=" + p.value
  }

  function RenderedPieces(ps: seq<Param>): (pieces: seq<string>)
    ensures |pieces| == |ps|
    ensures forall k :: 0 <= k < |ps| ==> pieces[k] == RenderParam(ps[k])
  {
    if ps == [] then [] else [RenderParam(ps[0])] + RenderedPieces(ps[1..])
  }

  /** The parameters as `name=value` pieces joined by `&`. */
  function Render(ps: seq<Param>): string
  {
    Join(RenderedPieces(ps), '&')
  }

  /** One piece, split at its first `=`; a piece without `=` is a name with the empty value. */
  function ParseParam(piece: string): Param
  {
    if '=' in piece then
      var i := IndexOf(piece, '=');
      Param(piece[..i], piece[i + 1..])
    else Param(piece, "")
  }

  /** The pieces in order, empty pieces skipped. */
  function ParsePieces(pieces: seq<string>): seq<Param>
  {
    if pieces == [] then []
    else (if pieces[0] == "" then [] else [ParseParam(pieces[0])]) + ParsePieces(pieces[1..])
  }

  /** A query without its `?`: split on `&`, each piece split at its first `=`. */
  function ParseQuery(query: string): seq<Param>
  {
    ParsePieces(Split(query, '&'))
  }

  /** `new URLSearchParams(init)`: one leading `?` is dropped, the rest is read by ParseQuery. */
  function Parse(init: string): seq<Param>
  {
    ParseQuery(if |init| > 0 && init[0] == '?' then init[1..] else init)
  }

  /** `params.get(name)`: the value of the first parameter called `name`, or `null`. */
  function Get(ps: seq<Param>, name: string): Option<string>
  {
    if ps == [] then None
    else if ps[0].name == name then Some(ps[0].value)
    else Get(ps[1..], name)
  }

  /**
   * `get` finds nothing exactly when no parameter has the name, and
   * otherwise finds the value of the first parameter that has it.
   */
  lemma {:induction false} GetMeaning(ps: seq<Param>, name: string)
    ensures Get(ps, name).None? <==> forall k :: 0 <= k < |ps| ==> ps[k].name != name
    ensures Get(ps, name).Some? ==>
      exists k :: 0 <= k < |ps| && ps[k] == Param(name, Get(ps, name).value) &&
                  forall j :: 0 <= j < k ==> ps[j].name != name
  {
    if ps != [] && ps[0].name != name {
      GetMeaning(ps[1..], name);
      assert forall k :: 1 <= k < |ps| ==> ps[k] == ps[1..][k - 1];
      if Get(ps, name).Some? {
        var k :| 0 <= k < |ps[1..]| && ps[1..][k] == Param(name, Get(ps, name).value) &&
                 forall j :: 0 <= j < k ==> ps[1..][j].name != name;
        assert ps[k + 1] == Param(name, Get(ps, name).value);
        assert forall j :: 1 <= j < k + 1 ==> ps[j].name != name;
      }
    } else if ps != [] {
      assert ps[0] == Param(name, Get(ps, name).value);
    }
  }

  /** A parameter whose name no earlier parameter has is what `get` finds for that name. */
  lemma {:induction false} GetFirst(ps: seq<Param>, k: nat)
    requires k < |ps|
    requires forall j :: 0 <= j < k ==> ps[j].name != ps[k].name
    ensures Get(ps, ps[k].name) == Some(ps[k].value)
  {
    if k > 0 {
      GetFirst(ps[1..], k - 1);
    }
  }

  /** The names of the parameters, in order. */
  function Names(ps: seq<Param>): (names: seq<string>)
    ensures |names| == |ps|
    ensures forall k :: 0 <= k < |ps| ==> names[k] == ps[k].name
  {
    if ps == [] then [] else [ps[0].name] + Names(ps[1..])
  }

  /** The names and values a query can carry so that reading it back gives them unchanged. */
  predicate Renderable(ps: seq<Param>)
  {
    forall k :: 0 <= k < |ps| ==> '&' !in ps[k].name && '=' !in ps[k].name && '&' !in ps[k].value
  }

  lemma ParseRenderedParam(p: Param)
    requires '=' !in p.name
    ensures ParseParam(RenderParam(p)) == p
  {
    var s := RenderParam(p);
    assert s[|p.name|] == '=';
    var i := IndexOf(s, '=');
    assert s[..|p.name|] == p.name;
    assert i == |p.name| by {
      // the first `=` can be neither inside the name nor after the one that follows it
      assert forall j :: 0 <= j < |p.name| ==> s[j] == p.name[j];
      assert forall j :: 0 <= j < i ==> s[..i][j] == s[j];
    }
    assert s[i + 1..] == p.value;
  }

  lemma {:induction false} ParseRenderedPieces(ps: seq<Param>)
    requires Renderable(ps)
    ensures ParsePieces(RenderedPieces(ps)) == ps
  {
    if ps != [] {
      var pieces := RenderedPieces(ps);
      assert pieces[0] != "" by { assert |pieces[0]| > |ps[0].name|; }
      ParseRenderedParam(ps[0]);
      assert pieces[1..] == RenderedPieces(ps[1..]);
      ParseRenderedPieces(ps[1..]);
    }
  }

  /** Reading back a rendered query gives the parameters that were written, in order. */
  lemma ParseRender(ps: seq<Param>)
    requires Renderable(ps)
    ensures ParseQuery(Render(ps)) == ps
    ensures Parse("?" + Render(ps)) == ps
  {
    var pieces := RenderedPieces(ps);
    if ps != [] {
      forall k | 0 <= k < |pieces| ensures '&' !in pieces[k] {
        assert pieces[k] == ps[k].name + "=" + ps[k].value;
      }
      SplitJoin(pieces, '&');
    }
    ParseRenderedPieces(ps);
    assert ("?" + Render(ps))[1..] == Render(ps);
  }
}
