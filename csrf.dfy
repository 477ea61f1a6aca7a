/**
 * `getCSRFToken` of users/static/js/profile.js: split the cookie header on
 * `;`, trim each piece, and return what follows `csrftoken=` in the first
 * piece that starts with it, or null.
 */
module CsrfCookie {
  import opened Wrappers
  import opened Text

  /** The characters JavaScript's `trim` removes: WhiteSpace and LineTerminator. */
  const JsWhitespace: set<char> := {'\t', '\n', '\U{000B}', '\U{000C}', '\r', ' ', '\U{00A0}', '\U{1680}', '\U{2000}', '\U{2001}', '\U{2002}', '\U{2003}', '\U{2004}', '\U{2005}', '\U{2006}', '\U{2007}', '\U{2008}', '\U{2009}', '\U{200A}', '\U{2028}', '\U{2029}', '\U{202F}', '\U{205F}', '\U{3000}', '\U{FEFF}'}

  predicate IsJsWhitespace(c: char) {
    c in JsWhitespace
  }

  /** `s` without its leading whitespace. */
  function TrimStart(s: string): (r: string)
    ensures |r| <= |s| && r == s[|s| - |r|..]
    ensures r == [] || !IsJsWhitespace(r[0])
    ensures forall i :: 0 <= i < |s| - |r| ==> IsJsWhitespace(s[i])
  {
    if s != [] && IsJsWhitespace(s[0]) then TrimStart(s[1..]) else s
  }

  /** `s` without its trailing whitespace. */
  function TrimEnd(s: string): (r: string)
    ensures |r| <= |s| && r == s[..|r|]
    ensures r == [] || !IsJsWhitespace(r[|r| - 1])
    ensures forall i :: |r| <= i < |s| ==> IsJsWhitespace(s[i])
  {
    if s != [] && IsJsWhitespace(s[|s| - 1]) then TrimEnd(s[..|s| - 1]) else s
  }

  /** `r` is `s[a..]` cut short, with only whitespace before it and after it. */
  predicate TrimmedSlice(s: string, r: string, a: int) {
    0 <= a && a + |r| <= |s| && r == s[a..a + |r|] &&
    (forall i :: 0 <= i < a ==> IsJsWhitespace(s[i])) &&
    (forall i :: a + |r| <= i < |s| ==> IsJsWhitespace(s[i]))
  }

  /** A prefix of a suffix of `s`, with only whitespace cut from either side, is a trimmed slice of `s`. */
  lemma SliceAround(s: string, t: string, r: string, a: int)
    requires 0 <= a <= |s| && t == s[a..] && |r| <= |t| && r == t[..|r|]
    requires forall i :: 0 <= i < a ==> IsJsWhitespace(s[i])
    requires forall i :: |r| <= i < |t| ==> IsJsWhitespace(t[i])
    ensures TrimmedSlice(s, r, a)
  {
    forall i | a + |r| <= i < |s| ensures IsJsWhitespace(s[i]) {
      assert s[i] == t[i - a];
    }
  }

  /** Trimming the end of what trimming the start left is a slice of the input with only whitespace around it. */
  lemma TrimStartEndSlice(s: string)
    ensures TrimmedSlice(s, TrimEnd(TrimStart(s)), |s| - |TrimStart(s)|)
  {
    var t := TrimStart(s);
    SliceAround(s, t, TrimEnd(t), |s| - |t|);
  }

  /**
   * `s.trim()`: the slice of `s` left once its leading and trailing
   * whitespace is removed.
   */
  function Trim(s: string): (r: string)
    ensures |r| <= |s|
    ensures forall c :: c in r ==> c in s
    ensures r == [] || (!IsJsWhitespace(r[0]) && !IsJsWhitespace(r[|r| - 1]))
    ensures exists a :: TrimmedSlice(s, r, a)
  {
    var t := TrimStart(s);
    TrimStartEndSlice(s);
    assert forall c :: c in t ==> c in s;
    TrimEnd(t)
  }

  const CsrfPrefix := "csrftoken="

  /** `t.startsWith("csrftoken=")`. */
  predicate HasCsrfPrefix(t: string) {
    StartsWith(t, CsrfPrefix)
  }

  /** Every piece of the cookie header, trimmed. */
  function TrimAll(pieces: seq<string>): (trimmed: seq<string>)
    ensures |trimmed| == |pieces|
    ensures forall i :: 0 <= i < |pieces| ==> trimmed[i] == Trim(pieces[i])
  {
    seq(|pieces|, i requires 0 <= i < |pieces| => Trim(pieces[i]))
  }

  /** The index of the first trimmed piece that starts with `csrftoken=`. */
  function FirstMatch(trimmed: seq<string>): (k: Option<nat>)
    ensures k.Some? ==> k.value < |trimmed| && HasCsrfPrefix(trimmed[k.value])
    ensures k.Some? ==> forall j :: 0 <= j < k.value ==> !HasCsrfPrefix(trimmed[j])
    ensures k.None? <==> forall j :: 0 <= j < |trimmed| ==> !HasCsrfPrefix(trimmed[j])
  {
    if trimmed == [] then None
    else if HasCsrfPrefix(trimmed[0]) then Some(0)
    else
      var k := FirstMatch(trimmed[1..]);
      if k.Some? then Some(k.value + 1) else None
  }

  /** Pieces after the first match play no part in the answer. */
  lemma {:induction false} FirstMatchIgnoresLater(trimmed: seq<string>, k: nat, later: seq<string>)
    requires FirstMatch(trimmed) == Some(k)
    ensures FirstMatch(trimmed[..k + 1] + later) == Some(k)
  {
    var extended := trimmed[..k + 1] + later;
    if k > 0 {
      assert FirstMatch(trimmed[1..]) == Some(k - 1);
      FirstMatchIgnoresLater(trimmed[1..], k - 1, later);
      assert extended[1..] == trimmed[1..][..k] + later;
      assert extended[0] == trimmed[0];
    }
  }

  /** What follows `csrftoken=` in a trimmed piece. */
  function TokenValue(t: string): (value: string)
    requires HasCsrfPrefix(t)
    ensures |value| == |t| - |CsrfPrefix| && value == t[|CsrfPrefix|..]
    ensures ';' !in t ==> ';' !in value
    ensures (t == [] || !IsJsWhitespace(t[|t| - 1])) && value != [] ==> !IsJsWhitespace(value[|value| - 1])
  {
    var value := t[|CsrfPrefix|..];
    assert forall c :: c in value ==> c in t;
    value
  }

  /** The token carried by one matching piece: the value after the prefix, once trimmed. */
  function PieceToken(piece: string): (value: string)
    requires HasCsrfPrefix(Trim(piece))
    ensures ';' !in piece ==> ';' !in value
    ensures value != [] ==> !IsJsWhitespace(value[|value| - 1])
  {
    TokenValue(Trim(piece))
  }

  /** What a returned token looks like: no `;`, and no whitespace at its end. */
  predicate TokenText(value: string) {
    ';' !in value && (value == [] || !IsJsWhitespace(value[|value| - 1]))
  }

  /** The token in the pieces of a cookie header: the value in the first matching piece. */
  function TokenIn(pieces: seq<string>): (token: Option<string>)
    requires forall i :: 0 <= i < |pieces| ==> ';' !in pieces[i]
    ensures token.Some? ==> TokenText(token.value)
  {
    var k := FirstMatch(TrimAll(pieces));
    if k.None? then None else Some(PieceToken(pieces[k.value]))
  }

  /** The token a cookie header yields. */
  function TokenOf(cookie: string): (token: Option<string>)
    ensures token.Some? ==> TokenText(token.value)
  {
    var pieces := Split(cookie, ';');
    assert forall i :: 0 <= i < |pieces| ==> ';' !in pieces[i];
    TokenIn(pieces)
  }

  /** The first index whose piece matches is what `FirstMatch` finds. */
  lemma FirstMatchIs(trimmed: seq<string>, i: nat)
    requires i < |trimmed| && HasCsrfPrefix(trimmed[i])
    requires forall j :: 0 <= j < i ==> !HasCsrfPrefix(trimmed[j])
    ensures FirstMatch(trimmed) == Some(i)
  {
  }

  /** When piece `i` is the first to match, the token is the value in that piece. */
  lemma TokenInAt(pieces: seq<string>, i: nat)
    requires forall j :: 0 <= j < |pieces| ==> ';' !in pieces[j]
    requires i < |pieces| && HasCsrfPrefix(TrimAll(pieces)[i])
    requires forall j :: 0 <= j < i ==> !HasCsrfPrefix(TrimAll(pieces)[j])
    ensures HasCsrfPrefix(Trim(pieces[i]))
    ensures TokenIn(pieces) == Some(PieceToken(pieces[i]))
  {
    FirstMatchIs(TrimAll(pieces), i);
  }

  /** When no piece matches, there is no token. */
  lemma TokenInNone(pieces: seq<string>)
    requires forall j :: 0 <= j < |pieces| ==> ';' !in pieces[j]
    requires forall j :: 0 <= j < |pieces| ==> !HasCsrfPrefix(TrimAll(pieces)[j])
    ensures TokenIn(pieces) == None
  {
  }

  /** `getCSRFToken` with `document.cookie` as the parameter. */
  method GetCsrfToken(cookie: string) returns (token: Option<string>)
    ensures token == TokenOf(cookie)
  {
    token := None;
    var cookies := Split(cookie, ';');
    ghost var trimmed := TrimAll(cookies);
    var i := 0;
    while i < |cookies|
      invariant 0 <= i <= |cookies|
      invariant token.None?
      invariant forall j :: 0 <= j < i ==> !HasCsrfPrefix(trimmed[j])
    {
      var piece := Trim(cookies[i]);
      assert piece == trimmed[i];
      if HasCsrfPrefix(piece) {
        TokenInAt(cookies, i);
        token := Some(PieceToken(cookies[i]));
        break;
      }
      forall j | 0 <= j < i + 1 ensures !HasCsrfPrefix(trimmed[j]) {
        if j == i {
          assert trimmed[j] == piece;
        }
      }
      i := i + 1;
    }
    if token.None? {
      TokenInNone(cookies);
    }
  }

  /** The test is a prefix test on the trimmed piece: a cookie named `xcsrftoken` is not taken. */
  lemma LookalikeNameIgnored(value: string)
    requires ';' !in value
    ensures TokenOf("xcsrftoken=" + value) == None
  {
    var cookie := "xcsrftoken=" + value;
    assert cookie[0] == 'x' && !IsJsWhitespace(cookie[0]);
    assert ';' !in cookie;
    SplitWithoutSeparator(cookie, ';');
    var trimmed := TrimAll([cookie]);
    assert TrimStart(cookie) == cookie;
    var t := Trim(cookie);
    assert t == cookie[..|t|];
    assert t == [] || t[0] == 'x';
    assert !HasCsrfPrefix(t);
    assert FirstMatch(trimmed) == None;
  }
}
