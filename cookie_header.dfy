/**
 * `parseCookie` of the WebSocket handshake (backend/src/server.ts): the `Cookie` header
 * is split on ';', each piece is trimmed and split on '=', the first field is the name
 * and the rest, re-joined with '=', is the value after `decodeURIComponent`. Pieces
 * without a name are skipped and a later piece overwrites an earlier one of the same
 * name. `decodeURIComponent` throws on a malformed escape, and the throw leaves the
 * parser: the result is then `None`.
 */
module CookieHeader {
  import opened Base
  import opened Text

  predicate IsHex(c: char) {
    ('0' <= c <= '9') || ('a' <= c <= 'f') || ('A' <= c <= 'F')
  }

  function HexValue(c: char): (v: nat)
    requires IsHex(c)
    ensures v < 16
  {
    if '0' <= c <= '9' then c as int - '0' as int
    else if 'a' <= c <= 'f' then c as int - 'a' as int + 10
    else c as int - 'A' as int + 10
  }

  /** The byte an escape `%XY` starting at `k` stands for. */
  function EscapeAt(s: string, k: nat): (r: Option<nat>)
    ensures r.Some? ==> k + 3 <= |s| && s[k] == '%' && r.value < 256
  {
    if k + 3 <= |s| && s[k] == '%' && IsHex(s[k + 1]) && IsHex(s[k + 2])
    then Some(HexValue(s[k + 1]) * 16 + HexValue(s[k + 2]))
    else None
  }

  /** Number of bytes of a UTF-8 sequence announced by its first byte; 0 if it cannot start one. */
  function Utf8Length(b: nat): nat {
    if 0xC0 <= b < 0xE0 then 2
    else if 0xE0 <= b < 0xF0 then 3
    else if 0xF0 <= b < 0xF8 then 4
    else 0
  }

  /** The payload bits of a first byte of an `n`-byte sequence. */
  function LeadBits(b: nat, n: nat): int {
    if n == 2 then b - 0xC0 else if n == 3 then b - 0xE0 else b - 0xF0
  }

  /** Reads `count` continuation escapes from `k` on, each 10xxxxxx, appending six bits each. */
  function Continuation(s: string, k: nat, count: nat, acc: int): Option<int>
    decreases count
  {
    if count == 0 then Some(acc)
    else match EscapeAt(s, k)
      case None => None
      case Some(b) =>
        if 0x80 <= b < 0xC0 then Continuation(s, k + 3, count - 1, acc * 64 + (b - 0x80)) else None
  }

  /** The code points an `n`-byte sequence may encode: no overlong forms and no surrogates. */
  predicate ValidScalar(cp: int, n: nat) {
    if n == 2 then 0x80 <= cp <= 0x7FF
    else if n == 3 then 0x800 <= cp <= 0xFFFF && !(0xD800 <= cp <= 0xDFFF)
    else n == 4 && 0x10000 <= cp <= 0x10FFFF
  }

  function Cons(c: char, r: Option<string>): (r': Option<string>)
    ensures r'.Some? <==> r.Some?
    ensures r'.Some? ==> r'.value == [c] + r.value
  {
    if r.None? then None else Some([c] + r.value)
  }

  /**
   * `decodeURIComponent(s)`: every `%XY` escape is replaced by its byte, and runs of
   * escaped bytes are read as UTF-8; `None` is the URIError it throws on a malformed escape
   * or ill-formed UTF-8.
   */
  function DecodeUriComponent(s: string): (r: Option<string>)
    ensures r.Some? ==> |r.value| <= |s|
    decreases |s|
  {
    if s == [] then Some([])
    else if s[0] != '%' then Cons(s[0], DecodeUriComponent(s[1..]))
    else match EscapeAt(s, 0)
      case None => None
      case Some(b) =>
        if b < 0x80 then Cons(b as char, DecodeUriComponent(s[3..]))
        else
          var n := Utf8Length(b);
          if n == 0 || |s| < 3 * n then None
          else match Continuation(s, 3, n - 1, LeadBits(b, n))
            case None => None
            case Some(cp) =>
              if ValidScalar(cp, n) then Cons(cp as char, DecodeUriComponent(s[3 * n..])) else None
  }

  /** An escape `%XY` of a byte below 0x80 decodes to that one character, and the rest is decoded on its own. */
  lemma AsciiEscape(hi: char, lo: char, rest: string)
    requires IsHex(hi) && IsHex(lo) && HexValue(hi) * 16 + HexValue(lo) < 0x80
    ensures DecodeUriComponent(['%', hi, lo] + rest) ==
      Cons((HexValue(hi) * 16 + HexValue(lo)) as char, DecodeUriComponent(rest))
  {
    var s := ['%', hi, lo] + rest;
    assert EscapeAt(s, 0) == Some(HexValue(hi) * 16 + HexValue(lo));
    assert s[3..] == rest;
  }

  /** A two-byte UTF-8 sequence: `%C3%A9` is the single character U+00E9. */
  lemma TwoByteEscape()
    ensures DecodeUriComponent("%C3%A9") == Some("\U{E9}")
  {
    var s := "%C3%A9";
    assert EscapeAt(s, 0) == Some(0xC3);
    assert EscapeAt(s, 3) == Some(0xA9);
    assert Continuation(s, 3, 1, LeadBits(0xC3, 2)) == Some(0xE9);
    assert s[6..] == [];
    assert DecodeUriComponent(s) == Cons(0xE9 as char, DecodeUriComponent([]));
    assert DecodeUriComponent([]) == Some([]);
    assert [0xE9 as char] + [] == [0xE9 as char];
    assert Cons(0xE9 as char, Some([])) == Some([0xE9 as char]);
    assert "\U{E9}" == [0xE9 as char];
  }

  /** A value without '%' decodes to itself. */
  lemma {:induction false} DecodeWithoutEscapes(s: string)
    requires '%' !in s
    ensures DecodeUriComponent(s) == Some(s)
    decreases |s|
  {
    if s != [] {
      assert s[0] in s;
      assert '%' !in s[1..] by {
        forall k | 0 <= k < |s| - 1 ensures s[1..][k] != '%' { assert s[1..][k] == s[k + 1]; }
      }
      DecodeWithoutEscapes(s[1..]);
      assert DecodeUriComponent(s) == Cons(s[0], DecodeUriComponent(s[1..]));
      assert s == [s[0]] + s[1..];
    }
  }

  /** The name of a piece: the trimmed piece up to its first '='. */
  function PieceKey(p: string): string {
    Split(Trim(p), '=')[0]
  }

  /** The undecoded value of a piece: the fields after the first, joined again with '='. */
  function PieceRawValue(p: string): string {
    Join(Split(Trim(p), '=')[1..], '=')
  }

  /**
   * The name is the text of the trimmed piece before the first '=' and the raw value the
   * text after it; a piece without '=' is all name and has the empty value.
   */
  lemma PieceFields(p: string)
    ensures var t := Trim(p);
      match IndexOf(t, '=')
      case None => PieceKey(p) == t && PieceRawValue(p) == ""
      case Some(i) => PieceKey(p) == t[..i] && PieceRawValue(p) == t[i + 1..]
  {
    SplitAtFirst(Trim(p), '=');
  }

  /** A piece as the loop sees it: its name and its decoded value (`None`: decoding throws). */
  datatype Pair = Pair(name: string, value: Option<string>)

  function PairOf(p: string): Pair {
    Pair(PieceKey(p), DecodeUriComponent(PieceRawValue(p)))
  }

  function Pairs(parts: seq<string>): (r: seq<Pair>)
    ensures |r| == |parts| && forall i :: 0 <= i < |parts| ==> r[i] == PairOf(parts[i])
  {
    seq(|parts|, i requires 0 <= i < |parts| => PairOf(parts[i]))
  }

  /** One iteration of the loop: a nameless piece is skipped, a named one is stored. */
  function Step(acc: Option<map<string, string>>, p: Pair): Option<map<string, string>> {
    if acc.None? then None
    else if p.name == "" then acc
    else if p.value.None? then None
    else Some(acc.value[p.name := p.value.value])
  }

  /** The record built from the pieces, left to right. */
  function Jar(pairs: seq<Pair>): Option<map<string, string>>
  {
    if |pairs| == 0 then Some(map[]) else Step(Jar(pairs[..|pairs| - 1]), pairs[|pairs| - 1])
  }

  /** The result of `parseCookie(header)`; a missing or empty header gives the empty record. */
  function Cookies(header: Option<string>): (jar: Option<map<string, string>>)
    ensures header.None? || header.value == "" ==> jar == Some(map[])
    ensures jar.Some? ==> "" !in jar.value
  {
    if header.None? || header.value == "" then Some(map[])
    else
      var pairs := Pairs(Split(header.value, ';'));
      if Jar(pairs).Some? then
        JarKeys(pairs);
        Jar(pairs)
      else Jar(pairs)
  }

  /** Once a piece has failed to decode, no later piece can repair it. */
  lemma {:induction false} JarFailureSticks(pairs: seq<Pair>, i: nat)
    requires i <= |pairs| && Jar(pairs[..i]).None?
    ensures Jar(pairs).None?
    decreases |pairs| - i
  {
    if i < |pairs| {
      assert pairs[..i + 1][..i] == pairs[..i];
      JarFailureSticks(pairs, i + 1);
    } else {
      assert pairs[..i] == pairs;
    }
  }

  /** The parser itself: a loop that fills the record piece by piece. */
  method ParseCookie(header: Option<string>) returns (out: Option<map<string, string>>)
    ensures out == Cookies(header)
  {
    if header.None? || header.value == "" {
      return Some(map[]);
    }
    var parts := Split(header.value, ';');
    ghost var pairs := Pairs(parts);
    var acc: map<string, string> := map[];
    var i := 0;
    while i < |parts|
      invariant 0 <= i <= |parts|
      invariant Jar(pairs[..i]) == Some(acc)
    {
      var fields := Split(Trim(parts[i]), '=');
      var k := fields[0];
      JarPrefixStep(pairs, i);
      if k != "" {
        var v := DecodeUriComponent(Join(fields[1..], '='));
        if v.None? {
          JarFailureSticks(pairs, i + 1);
          return None;
        }
        acc := acc[k := v.value];
      }
      i := i + 1;
    }
    assert pairs[..|parts|] == pairs;
    return Some(acc);
  }

  /** The record after `i + 1` pieces is one step on from the record after `i`. */
  lemma JarPrefixStep(pairs: seq<Pair>, i: nat)
    requires i < |pairs|
    ensures Jar(pairs[..i + 1]) == Step(Jar(pairs[..i]), pairs[i])
  {
    assert pairs[..i + 1][..i] == pairs[..i];
  }

  /** Names in the record are exactly the non-empty names of the pieces. */
  lemma {:induction false} JarKeys(pairs: seq<Pair>)
    requires Jar(pairs).Some?
    ensures forall k :: k in Jar(pairs).value <==> k != "" && exists i :: 0 <= i < |pairs| && pairs[i].name == k
  {
    if |pairs| > 0 {
      var init := pairs[..|pairs| - 1];
      var last := pairs[|pairs| - 1];
      assert Jar(init).Some?;
      JarKeys(init);
      forall k
        ensures k in Jar(pairs).value <==> k != "" && exists i :: 0 <= i < |pairs| && pairs[i].name == k
      {
        if k in Jar(pairs).value {
          if k != last.name {
            var i :| 0 <= i < |init| && init[i].name == k;
            assert pairs[i].name == k;
          }
        } else if k != "" {
          forall i | 0 <= i < |pairs| ensures pairs[i].name != k {
            if i < |init| {
              assert init[i] == pairs[i];
            }
          }
        }
      }
    }
  }

  /** The value of a name is the decoded value of the LAST piece carrying that name. */
  lemma {:induction false} JarLastWins(pairs: seq<Pair>, i: nat)
    requires Jar(pairs).Some?
    requires i < |pairs| && pairs[i].name != ""
    requires forall j :: i < j < |pairs| ==> pairs[j].name != pairs[i].name
    ensures pairs[i].value.Some?
    ensures pairs[i].name in Jar(pairs).value && Jar(pairs).value[pairs[i].name] == pairs[i].value.value
    decreases |pairs|
  {
    var init := pairs[..|pairs| - 1];
    assert Jar(init).Some?;
    if i < |pairs| - 1 {
      assert init[i] == pairs[i];
      assert forall j :: i < j < |init| ==> init[j] == pairs[j];
      JarLastWins(init, i);
    }
  }

  /** Parsing fails exactly when some named piece carries a value that does not decode. */
  lemma {:induction false} JarFailsIff(pairs: seq<Pair>)
    ensures Jar(pairs).None? <==> exists i :: 0 <= i < |pairs| && pairs[i].name != "" && pairs[i].value.None?
  {
    if |pairs| > 0 {
      var init := pairs[..|pairs| - 1];
      JarFailsIff(init);
      if Jar(init).None? {
        var i :| 0 <= i < |init| && init[i].name != "" && init[i].value.None?;
        assert pairs[i] == init[i];
      } else if Jar(pairs).Some? {
        forall i | 0 <= i < |pairs| && pairs[i].name != "" ensures pairs[i].value.Some? {
          if i < |init| {
            assert init[i] == pairs[i];
          }
        }
      }
    }
  }

  /** A trimmed `name=value` piece with a plain name splits into that name and value. */
  lemma PlainPiece(name: string, value: string)
    requires name != [] && !IsJsWhitespace(name[0]) && '=' !in name
    requires value == [] || !IsJsWhitespace(value[|value| - 1])
    ensures PieceKey(name + "=" + value) == name && PieceRawValue(name + "=" + value) == value
  {
    var h := name + "=" + value;
    assert h[0] == name[0];
    assert h[|h| - 1] == (if value == [] then '=' else value[|value| - 1]);
    TrimUnchanged(h);
    assert h[..|name|] == name;
    IndexOfFirst(h, '=', |name|);
    PieceFields(h);
    assert h[|name| + 1..] == value;
  }

  /** A header that is one `name=value` pair, with a plain name and value, parses to that pair. */
  lemma SinglePair(name: string, value: string)
    requires name != [] && !IsJsWhitespace(name[0])
    requires '=' !in name && ';' !in name && ';' !in value && '%' !in value
    requires value == [] || !IsJsWhitespace(value[|value| - 1])
    ensures Cookies(Some(name + "=" + value)) == Some(map[name := value])
  {
    var h := name + "=" + value;
    OnePiece(name, value);
    PlainPiece(name, value);
    DecodeWithoutEscapes(value);
    var pairs := Pairs([h]);
    assert pairs == [Pair(name, Some(value))];
    assert pairs[..0] == [];
    assert Jar(pairs) == Step(Some(map[]), Pair(name, Some(value)));
  }

  /** A pair without ';' is a header of one piece. */
  lemma OnePiece(name: string, value: string)
    requires ';' !in name && ';' !in value
    ensures Split(name + "=" + value, ';') == [name + "=" + value]
  {
    var h := name + "=" + value;
    assert ';' !in h by {
      forall k | 0 <= k < |h| ensures h[k] != ';' {
        if k < |name| { assert h[k] == name[k]; }
        else if k > |name| { assert h[k] == value[k - |name| - 1]; }
      }
    }
  }

  /** A header that is one `name=value` pair whose value does not decode makes the parse throw. */
  lemma SingleFailingPair(name: string, value: string)
    requires name != [] && !IsJsWhitespace(name[0])
    requires '=' !in name && ';' !in name && ';' !in value
    requires value != [] && !IsJsWhitespace(value[|value| - 1])
    requires DecodeUriComponent(value).None?
    ensures Cookies(Some(name + "=" + value)) == None
  {
    var h := name + "=" + value;
    OnePiece(name, value);
    PlainPiece(name, value);
    var pairs := Pairs([h]);
    assert pairs == [Pair(name, None)];
    assert pairs[..0] == [];
    assert Jar(pairs) == Step(Some(map[]), Pair(name, None));
  }

  /** `%ZZ` is not an escape: `decodeURIComponent` throws on it. */
  lemma MalformedEscape()
    ensures DecodeUriComponent("%ZZ") == None
  {
    assert !IsHex('Z');
  }
}
