/**
 * String operations the widget reaches through JavaScript's String API:
 * `replace` with a global one-character pattern, `replace(/c+$/, '')`,
 * `padStart`, and the joining and splitting of `&`-separated lists that
 * underlie query strings.
 */
module Text {

  /** `s.replace(/f/g, t)` for a one-character pattern `f`: every `f` becomes `t`, nothing else moves. */
  function ReplaceChar(s: string, f: char, t: char): (r: string)
    ensures |r| == |s|
    ensures forall i :: 0 <= i < |s| ==> r[i] == (if s[i] == f then t else s[i])
    ensures f != t ==> f !in r
  {
    if s == [] then [] else [if s[0] == f then t else s[0]] + ReplaceChar(s[1..], f, t)
  }

  /** `s.replace(/c+$/, '')`: the longest run of `c` at the end of `s` is removed. */
  function StripTrailing(s: string, c: char): (r: string)
    ensures r <= s
    ensures forall i :: |r| <= i < |s| ==> s[i] == c
    ensures r == [] || r[|r| - 1] != c
  {
    if s != [] && s[|s| - 1] == c then StripTrailing(s[..|s| - 1], c) else s
  }

  /** The three clauses of StripTrailing's contract leave exactly one possible result. */
  lemma StripTrailingUnique(s: string, c: char, r: string)
    requires r <= s
    requires forall i :: |r| <= i < |s| ==> s[i] == c
    requires r == [] || r[|r| - 1] != c
    ensures r == StripTrailing(s, c)
  {
    var q := StripTrailing(s, c);
    // the last kept character of either result is the one the other would have had to strip
    if |q| > 0 { assert q[|q| - 1] == s[|q| - 1]; }
    if |r| > 0 { assert r[|r| - 1] == s[|r| - 1]; }
  }

  /** `s.indexOf(c)` for a character that occurs in `s`: the position of its first occurrence. */
  function IndexOf(s: string, c: char): (i: nat)
    requires c in s
    ensures i < |s| && s[i] == c && c !in s[..i]
  {
    if s[0] == c then 0 else 1 + IndexOf(s[1..], c)
  }

  /** A string of `n` copies of `c`. */
  function Repeat(c: char, n: nat): (r: string)
    ensures |r| == n
    ensures forall i :: 0 <= i < n ==> r[i] == c
  {
    if n == 0 then [] else [c] + Repeat(c, n - 1)
  }

  /** `s.padStart(n, c)` for a one-character filler: `c` is prepended until `s` is `n` long. */
  function PadStart(s: string, n: nat, c: char): (r: string)
    ensures |r| == if |s| >= n then |s| else n
    ensures r[|r| - |s|..] == s
    ensures forall i :: 0 <= i < |r| - |s| ==> r[i] == c
  {
    if |s| >= n then s else Repeat(c, n - |s|) + s
  }

  /** The parts separated by `sep`, as `parts.join(sep)` builds them. */
  function Join(parts: seq<string>, sep: char): string
  {
    if |parts| == 0 then ""
    else if |parts| == 1 then parts[0]
    else parts[0] + [sep] + Join(parts[1..], sep)
  }

  /** `s.split(sep)`: the maximal pieces of `s` free of `sep`; joining them again gives `s`. */
  function Split(s: string, sep: char): (parts: seq<string>)
    ensures |parts| >= 1
    ensures Join(parts, sep) == s
    ensures forall k :: 0 <= k < |parts| ==> sep !in parts[k]
  {
    if s == [] then [""]
    else
      var rest := Split(s[1..], sep);
      if s[0] == sep then
        [""] + rest
      else
        assert Join([[s[0]] + rest[0]] + rest[1..], sep) == [s[0]] + Join(rest, sep) by {
          if |rest| > 1 {
            assert ([[s[0]] + rest[0]] + rest[1..])[1..] == rest[1..];
          }
        }
        [[s[0]] + rest[0]] + rest[1..]
  }

  /** Two strings that each start with a `sep`-free piece followed by `sep` split at the same place. */
  lemma FirstSeparator(a: string, b: string, c: string, d: string, sep: char)
    requires sep !in a && sep !in c
    requires a + [sep] + b == c + [sep] + d
    ensures a == c && b == d
  {
    var s := a + [sep] + b;
    assert s[|a|] == sep && s[|c|] == sep;
    assert forall i :: 0 <= i < |a| ==> s[i] == a[i];
    assert forall i :: 0 <= i < |c| ==> s[i] == c[i];
    assert |a| == |c|;
    assert a == s[..|a|] == c;
    assert b == s[|a| + 1..] == d;
  }

  /** Joining two or more pieces puts a separator into the result. */
  lemma JoinOfSeveralHasSeparator(ps: seq<string>, sep: char)
    ensures |ps| > 1 ==> sep in Join(ps, sep)
  {
    if |ps| > 1 {
      assert Join(ps, sep)[|ps[0]|] == sep;
    }
  }

  /** Joining is injective on non-empty lists of `sep`-free pieces. */
  lemma {:induction false} JoinInjective(ps: seq<string>, qs: seq<string>, sep: char)
    requires |ps| >= 1 && |qs| >= 1
    requires forall k :: 0 <= k < |ps| ==> sep !in ps[k]
    requires forall k :: 0 <= k < |qs| ==> sep !in qs[k]
    requires Join(ps, sep) == Join(qs, sep)
    ensures ps == qs
  {
    // a single piece holds no separator, a longer join does
    JoinOfSeveralHasSeparator(ps, sep);
    JoinOfSeveralHasSeparator(qs, sep);
    if |ps| == 1 || |qs| == 1 {
    } else {
      FirstSeparator(ps[0], Join(ps[1..], sep), qs[0], Join(qs[1..], sep), sep);
      JoinInjective(ps[1..], qs[1..], sep);
      assert ps == [ps[0]] + ps[1..] && qs == [qs[0]] + qs[1..];
    }
  }

  /** Splitting undoes joining when no piece contains the separator. */
  lemma SplitJoin(parts: seq<string>, sep: char)
    requires |parts| >= 1
    requires forall k :: 0 <= k < |parts| ==> sep !in parts[k]
    ensures Split(Join(parts, sep), sep) == parts
  {
    JoinInjective(Split(Join(parts, sep), sep), parts, sep);
  }
}
