/**
 * The string handling the loaders rely on: Python's `str.strip()`,
 * `str.split(",")` and `int(...)` on a decimal token.
 */
module Text {
  import opened Wrappers

  /** Python's `str.isspace()` for a single character. */
  predicate IsSpace(c: char)
  {
    ('\t' <= c <= '\r') || ('\U{1C}' <= c <= ' ') || c == '\U{85}' || c == '\U{A0}'
    || c == '\U{1680}' || ('\U{2000}' <= c <= '\U{200A}') || c == '\U{2028}' || c == '\U{2029}'
    || c == '\U{202F}' || c == '\U{205F}' || c == '\U{3000}'
  }

  function TrimLeft(s: string): (r: string)
    ensures |r| <= |s|
    ensures r == [] || !IsSpace(r[0])
    ensures forall i :: 0 <= i < |s| - |r| ==> IsSpace(s[i])
  {
    if s != [] && IsSpace(s[0]) then TrimLeft(s[1..]) else s
  }

  /** What `TrimLeft` keeps is a suffix of its input. */
  lemma {:induction false} TrimLeftSuffix(s: string)
    ensures TrimLeft(s) == s[|s| - |TrimLeft(s)|..]
  {
    if s != [] && IsSpace(s[0]) {
      TrimLeftSuffix(s[1..]);
      assert s[1..][|s[1..]| - |TrimLeft(s[1..])|..] == s[|s| - |TrimLeft(s)|..];
    }
  }

  function TrimRight(s: string): (r: string)
    ensures |r| <= |s| && r == s[..|r|]
    ensures r == [] || !IsSpace(r[|r| - 1])
    ensures forall i :: |r| <= i < |s| ==> IsSpace(s[i])
  {
    if s != [] && IsSpace(s[|s| - 1]) then TrimRight(s[..|s| - 1]) else s
  }

  /** Python's `str.strip()`: drop leading and trailing whitespace, keep the rest. */
  function Strip(s: string): (r: string)
    ensures r == [] || (!IsSpace(r[0]) && !IsSpace(r[|r| - 1]))
  {
    TrimRight(TrimLeft(s))
  }

  /** What `Strip` removes is whitespace at either end, and what it keeps is the slice between. */
  lemma StripBounds(s: string) returns (a: nat, b: nat)
    ensures a <= b <= |s| && Strip(s) == s[a..b]
    ensures forall i :: 0 <= i < a ==> IsSpace(s[i])
    ensures forall i :: b <= i < |s| ==> IsSpace(s[i])
  {
    var l := TrimLeft(s);
    var r := TrimRight(l);
    TrimLeftSuffix(s);
    a := |s| - |l|;
    b := a + |r|;
    assert l == s[a..];
    assert r == l[..|r|];
    assert r == s[a..b];
    forall i | b <= i < |s|
      ensures IsSpace(s[i])
    {
      assert s[i] == l[i - a];
    }
  }

  lemma StripUnspaced(s: string)
    requires s == [] || (!IsSpace(s[0]) && !IsSpace(s[|s| - 1]))
    ensures Strip(s) == s
  {
  }

  /** Inverse of `Split`: the pieces glued back together with `sep` between them. */
  function Join(pieces: seq<string>, sep: char): string
    requires |pieces| >= 1
  {
    if |pieces| == 1 then pieces[0] else pieces[0] + [sep] + Join(pieces[1..], sep)
  }

  /** Python's `s.split(sep)` for a one-character separator: never empty, `""` gives `[""]`. */
  function Split(s: string, sep: char): (r: seq<string>)
    ensures |r| >= 1
    ensures forall i :: 0 <= i < |r| ==> sep !in r[i]
    ensures Join(r, sep) == s
  {
    if s == [] then [""]
    else
      var rest := Split(s[1..], sep);
      if s[0] == sep then
        [""] + rest
      else
        assert Join([[s[0]] + rest[0]] + rest[1..], sep) == [s[0]] + Join(rest, sep);
        [[s[0]] + rest[0]] + rest[1..]
  }

  /** Splitting a join of separator-free pieces gives the pieces back. */
  lemma {:induction false} SplitJoin(pieces: seq<string>, sep: char)
    requires |pieces| >= 1
    requires forall i :: 0 <= i < |pieces| ==> sep !in pieces[i]
    ensures Split(Join(pieces, sep), sep) == pieces
  {
    var p := pieces[0];
    if |pieces| == 1 {
      SplitPiece(p, [], sep);
    } else {
      SplitJoin(pieces[1..], sep);
      SplitPiece(p, [sep] + Join(pieces[1..], sep), sep);
    }
  }

  lemma {:induction false} SplitPiece(p: string, tail: string, sep: char)
    requires sep !in p
    requires tail == [] || tail[0] == sep
    ensures var r := Split(tail, sep);
            Split(p + tail, sep) == if tail == [] then [p] else [p] + r[1..]
  {
    if p == [] {
      if tail != [] {
        assert p + tail == tail;
      }
    } else {
      assert (p + tail)[1..] == p[1..] + tail;
      SplitPiece(p[1..], tail, sep);
      assert [p[0]] + p[1..] == p;
    }
  }

  predicate IsDigit(c: char) { '0' <= c <= '9' }

  predicate IsDecimal(s: string)
  {
    |s| > 0 && forall i :: 0 <= i < |s| ==> IsDigit(s[i])
  }

  function DigitValue(c: char): nat
    requires IsDigit(c)
  {
    (c as int) - ('0' as int)
  }

  function DecimalValue(s: string): nat
    requires forall i :: 0 <= i < |s| ==> IsDigit(s[i])
  {
    if s == [] then 0 else 10 * DecimalValue(s[..|s| - 1]) + DigitValue(s[|s| - 1])
  }

  /** `str(n)` for a natural number. */
  function NatToDecimal(n: nat): (r: string)
    ensures IsDecimal(r)
  {
    var d := [(('0' as int) + n % 10) as char];
    if n < 10 then d else NatToDecimal(n / 10) + d
  }

  /**
   * Python's `int(token)`, restricted to tokens that are decimal digit strings
   * once surrounding whitespace is stripped; anything else is the `ValueError` path.
   */
  function ParseNat(token: string): (r: Option<nat>)
    ensures r.Some? <==> IsDecimal(Strip(token))
  {
    var t := Strip(token);
    if IsDecimal(t) then Some(DecimalValue(t)) else None
  }

  lemma {:induction false} DecimalValueOfNat(n: nat)
    ensures DecimalValue(NatToDecimal(n)) == n
  {
    var d := [(('0' as int) + n % 10) as char];
    if n >= 10 {
      DecimalValueOfNat(n / 10);
      var s := NatToDecimal(n / 10) + d;
      assert s[..|s| - 1] == NatToDecimal(n / 10);
    }
  }

  /** `int(str(n)) == n`. */
  lemma ParseNatOfDecimal(n: nat)
    ensures ParseNat(NatToDecimal(n)) == Some(n)
  {
    var s := NatToDecimal(n);
    DigitNotSpace(s[0]);
    DigitNotSpace(s[|s| - 1]);
    StripUnspaced(s);
    DecimalValueOfNat(n);
  }

  lemma DigitNotSpace(c: char)
    requires IsDigit(c)
    ensures !IsSpace(c)
  {
  }

  /**
   * The neighbour list written in one adjacency field once it has been split
   * on commas: each piece is stripped, empty pieces are skipped, every other
   * piece must be an integer (`None` is the `ValueError` that `int` raises).
   */
  function Tokens(pieces: seq<string>): Option<seq<nat>>
  {
    if pieces == [] then Some([])
    else
      match Tokens(pieces[..|pieces| - 1])
      case None => None
      case Some(ns) =>
        var p := Strip(pieces[|pieces| - 1]);
        if p == "" then Some(ns)
        else
          match ParseNat(p)
          case None => None
          case Some(n) => Some(ns + [n])
  }

  lemma {:induction false} TokensFailureSticks(pieces: seq<string>, i: nat)
    requires i <= |pieces| && Tokens(pieces[..i]) == None
    ensures Tokens(pieces) == None
    decreases |pieces| - i
  {
    if i < |pieces| {
      assert pieces[..i + 1][..i] == pieces[..i];
      TokensFailureSticks(pieces, i + 1);
    } else {
      assert pieces[..i] == pieces;
    }
  }

  /** The `for part in ...split(","):` loop of the loaders. */
  method ParseTokens(pieces: seq<string>) returns (r: Option<seq<nat>>)
    ensures r == Tokens(pieces)
  {
    var neighbors: seq<nat> := [];
    for i := 0 to |pieces|
      invariant Tokens(pieces[..i]) == Some(neighbors)
    {
      assert pieces[..i + 1][..i] == pieces[..i];
      var part := Strip(pieces[i]);
      if part == "" {
        continue;
      }
      var n := ParseNat(part);
      if n.None? {
        TokensFailureSticks(pieces, i + 1);
        return None;
      }
      neighbors := neighbors + [n.value];
    }
    assert pieces[..|pieces|] == pieces;
    r := Some(neighbors);
  }

  /** Decimal renderings of `ns`, the pieces of a comma-separated field. */
  function DecimalPieces(ns: seq<nat>): (r: seq<string>)
    ensures |r| == |ns|
    ensures forall i :: 0 <= i < |ns| ==> r[i] == NatToDecimal(ns[i])
  {
    if ns == [] then [] else DecimalPieces(ns[..|ns| - 1]) + [NatToDecimal(ns[|ns| - 1])]
  }

  /** Reading back the decimal renderings of a list of ids gives the list. */
  lemma {:induction false} TokensOfDecimals(ns: seq<nat>)
    ensures Tokens(DecimalPieces(ns)) == Some(ns)
  {
    if ns != [] {
      var init, n := ns[..|ns| - 1], ns[|ns| - 1];
      assert init + [n] == ns;
      var ps := DecimalPieces(ns);
      assert ps[..|ps| - 1] == DecimalPieces(init);
      TokensOfDecimals(init);
      var last := NatToDecimal(n);
      StripUnspaced(last);
      ParseNatOfDecimal(n);
      TokensSnoc(ps, init, n);
    }
  }

  lemma TokensSnoc(ps: seq<string>, ns: seq<nat>, n: nat)
    requires |ps| > 0 && Tokens(ps[..|ps| - 1]) == Some(ns)
    requires Strip(ps[|ps| - 1]) != "" && ParseNat(Strip(ps[|ps| - 1])) == Some(n)
    ensures Tokens(ps) == Some(ns + [n])
  {
  }

  lemma DecimalHasNoComma(n: nat)
    ensures ',' !in NatToDecimal(n)
  {
  }
}
