/** The URL sanitiser of nowplaying.py (`_make_URL_ready`): a fixed chain of
    single-character replacements that percent-encodes 25 reserved characters
    so that a text can be used as one query-parameter value. */
module Sanitizer {

  datatype Option<T> = None | Some(value: T)

  /** Python's `str.replace(ch, rep)` for a one-character pattern: every
      occurrence of `ch` is replaced by `rep`, left to right. */
  function ReplaceAll(s: string, ch: char, rep: string): string
  {
    if s == [] then []
    else (if s[0] == ch then rep else [s[0]]) + ReplaceAll(s[1..], ch, rep)
  }

  /** `_make_URL_ready` as written: 25 replacements applied in source order,
      `%` first. Note the escape of `:` is `%eA`, not the `%3A` of RFC 3986. */
  function MakeUrlReady(text: string): string
  {
    var s0 := ReplaceAll(text, '%', "%25");
    var s1 := ReplaceAll(s0, '$', "%24");
    var s2 := ReplaceAll(s1, '&', "%26");
    var s3 := ReplaceAll(s2, '+', "%2B");
    var s4 := ReplaceAll(s3, ',', "%2C");
    var s5 := ReplaceAll(s4, '/', "%2F");
    var s6 := ReplaceAll(s5, ':', "%eA");
    var s7 := ReplaceAll(s6, ';', "%3B");
    var s8 := ReplaceAll(s7, '=', "%3D");
    var s9 := ReplaceAll(s8, '?', "%3F");
    var s10 := ReplaceAll(s9, '@', "%40");
    var s11 := ReplaceAll(s10, ' ', "%20");
    var s12 := ReplaceAll(s11, '"', "%22");
    var s13 := ReplaceAll(s12, '<', "%3C");
    var s14 := ReplaceAll(s13, '>', "%3E");
    var s15 := ReplaceAll(s14, '#', "%23");
    var s16 := ReplaceAll(s15, '{', "%7B");
    var s17 := ReplaceAll(s16, '}', "%7D");
    var s18 := ReplaceAll(s17, '|', "%7C");
    var s19 := ReplaceAll(s18, '\\', "%5C");
    var s20 := ReplaceAll(s19, '^', "%5E");
    var s21 := ReplaceAll(s20, '~', "%7E");
    var s22 := ReplaceAll(s21, '[', "%5B");
    var s23 := ReplaceAll(s22, ']', "%5D");
    ReplaceAll(s23, '`', "%60")
  }

  /** The 25 characters the sanitiser escapes. */
  predicate IsReserved(c: char)
  {
    c in {'%', '$', '&', '+', ',', '/', ':', ';', '=', '?', '@', ' ', '"',
          '<', '>', '#', '{', '}', '|', '\\', '^', '~', '[', ']', '`'}
  }

  /** A character that may follow `%` in an escape: an ASCII digit or letter. */
  predicate IsEscapeDigit(x: char)
  {
    '0' <= x <= '9' || 'A' <= x <= 'Z' || 'a' <= x <= 'z'
  }

  /** The per-character table: each reserved character becomes its fixed
      three-character escape, every other character stays as it is. */
  function EncodeChar(c: char): (r: string)
    ensures IsReserved(c) ==> |r| == 3 && r[0] == '%' && IsEscapeDigit(r[1]) && IsEscapeDigit(r[2])
    ensures !IsReserved(c) ==> r == [c]
  {
    match c
    case '%' => "%25"
    case '$' => "%24"
    case '&' => "%26"
    case '+' => "%2B"
    case ',' => "%2C"
    case '/' => "%2F"
    case ':' => "%eA"
    case ';' => "%3B"
    case '=' => "%3D"
    case '?' => "%3F"
    case '@' => "%40"
    case ' ' => "%20"
    case '"' => "%22"
    case '<' => "%3C"
    case '>' => "%3E"
    case '#' => "%23"
    case '{' => "%7B"
    case '}' => "%7D"
    case '|' => "%7C"
    case '\\' => "%5C"
    case '^' => "%5E"
    case '~' => "%7E"
    case '[' => "%5B"
    case ']' => "%5D"
    case '`' => "%60"
    case _ => [c]
  }

  /** The inverse of the table on escapes: the reserved character whose
      escape is `%` followed by `a` and `b`, if any. */
  function Unescape(a: char, b: char): (r: Option<char>)
    ensures r.Some? ==> IsReserved(r.value) && EncodeChar(r.value) == ['%', a, b]
  {
    match (a, b)
    case ('2', '5') => Some('%')
    case ('2', '4') => Some('$')
    case ('2', '6') => Some('&')
    case ('2', 'B') => Some('+')
    case ('2', 'C') => Some(',')
    case ('2', 'F') => Some('/')
    case ('e', 'A') => Some(':')
    case ('3', 'B') => Some(';')
    case ('3', 'D') => Some('=')
    case ('3', 'F') => Some('?')
    case ('4', '0') => Some('@')
    case ('2', '0') => Some(' ')
    case ('2', '2') => Some('"')
    case ('3', 'C') => Some('<')
    case ('3', 'E') => Some('>')
    case ('2', '3') => Some('#')
    case ('7', 'B') => Some('{')
    case ('7', 'D') => Some('}')
    case ('7', 'C') => Some('|')
    case ('5', 'C') => Some('\\')
    case ('5', 'E') => Some('^')
    case ('7', 'E') => Some('~')
    case ('5', 'B') => Some('[')
    case ('5', 'D') => Some(']')
    case ('6', '0') => Some('`')
    case _ => None
  }

  lemma UnescapeEncodeChar(c: char)
    requires IsReserved(c)
    ensures Unescape(EncodeChar(c)[1], EncodeChar(c)[2]) == Some(c)
  {
  }

  /** The sanitiser as a per-character map over the table. */
  function Encode(s: string): (r: string)
    ensures |r| == |s| + 2 * CountReserved(s)
    ensures forall i :: 0 <= i < |r| ==> r[i] == '%' || !IsReserved(r[i])
  {
    if s == [] then [] else EncodeChar(s[0]) + Encode(s[1..])
  }

  /** Number of reserved characters in `s`. */
  function CountReserved(s: string): nat
  {
    if s == [] then 0 else (if IsReserved(s[0]) then 1 else 0) + CountReserved(s[1..])
  }

  /** A decoder for the sanitiser's output: `%` and two characters name one
      reserved character, any other non-reserved character stands for itself;
      anything else is not an output of the sanitiser. */
  function Decode(t: string): Option<string>
  {
    if t == [] then Some([])
    else if t[0] == '%' then
      if |t| < 3 then None
      else match (Unescape(t[1], t[2]), Decode(t[3..]))
        case (Some(c), Some(rest)) => Some([c] + rest)
        case _ => None
    else if IsReserved(t[0]) then None
    else match Decode(t[1..])
      case Some(rest) => Some([t[0]] + rest)
      case None => None
  }

  lemma {:induction false} ReplaceAllConcat(a: string, b: string, ch: char, rep: string)
    ensures ReplaceAll(a + b, ch, rep) == ReplaceAll(a, ch, rep) + ReplaceAll(b, ch, rep)
  {
    if a == [] {
      assert a + b == b;
    } else {
      var head := if a[0] == ch then rep else [a[0]];
      assert (a + b)[0] == a[0];
      assert (a + b)[1..] == a[1..] + b;
      ReplaceAllConcat(a[1..], b, ch, rep);
      assert head + (ReplaceAll(a[1..], ch, rep) + ReplaceAll(b, ch, rep))
          == (head + ReplaceAll(a[1..], ch, rep)) + ReplaceAll(b, ch, rep);
    }
  }

  lemma {:induction false} EncodeConcat(a: string, b: string)
    ensures Encode(a + b) == Encode(a) + Encode(b)
  {
    if a == [] {
      assert a + b == b;
    } else {
      assert (a + b)[0] == a[0];
      assert (a + b)[1..] == a[1..] + b;
      EncodeConcat(a[1..], b);
    }
  }

  /** A replacement whose character does not occur changes nothing. */
  lemma {:induction false} ReplaceAllAbsent(s: string, ch: char, rep: string)
    requires ch !in s
    ensures ReplaceAll(s, ch, rep) == s
  {
    if s != [] {
      assert s[0] in s;
      assert forall x :: x in s[1..] ==> x in s;
      ReplaceAllAbsent(s[1..], ch, rep);
      assert s == [s[0]] + s[1..];
    }
  }

  lemma ReplaceAllSingle(x: char, ch: char, rep: string)
    ensures ReplaceAll([x], ch, rep) == if x == ch then rep else [x]
  {
    assert [x][1..] == [];
  }

  /** The character named by the `k`-th replacement of the chain. */
  function RuleChar(k: nat): char
    requires k < 25
  {
    match k
    case 0 => '%'
    case 1 => '$'
    case 2 => '&'
    case 3 => '+'
    case 4 => ','
    case 5 => '/'
    case 6 => ':'
    case 7 => ';'
    case 8 => '='
    case 9 => '?'
    case 10 => '@'
    case 11 => ' '
    case 12 => '"'
    case 13 => '<'
    case 14 => '>'
    case 15 => '#'
    case 16 => '{'
    case 17 => '}'
    case 18 => '|'
    case 19 => '\\'
    case 20 => '^'
    case 21 => '~'
    case 22 => '['
    case 23 => ']'
    case _ => '`'
  }

  /** The text the `k`-th replacement of the chain substitutes. */
  function RuleEscape(k: nat): string
    requires k < 25
  {
    match k
    case 0 => "%25"
    case 1 => "%24"
    case 2 => "%26"
    case 3 => "%2B"
    case 4 => "%2C"
    case 5 => "%2F"
    case 6 => "%eA"
    case 7 => "%3B"
    case 8 => "%3D"
    case 9 => "%3F"
    case 10 => "%40"
    case 11 => "%20"
    case 12 => "%22"
    case 13 => "%3C"
    case 14 => "%3E"
    case 15 => "%23"
    case 16 => "%7B"
    case 17 => "%7D"
    case 18 => "%7C"
    case 19 => "%5C"
    case 20 => "%5E"
    case 21 => "%7E"
    case 22 => "%5B"
    case 23 => "%5D"
    case _ => "%60"
  }

  /** The first `k` replacements of the chain, in source order. */
  function Chain(k: nat, s: string): string
    requires k <= 25
  {
    if k == 0 then s else ReplaceAll(Chain(k - 1, s), RuleChar(k - 1), RuleEscape(k - 1))
  }

  /** Position in the chain of the replacement naming `c` (25 if none). */
  function StageOf(c: char): (k: nat)
    ensures k <= 25
  {
    match c
    case '%' => 0
    case '$' => 1
    case '&' => 2
    case '+' => 3
    case ',' => 4
    case '/' => 5
    case ':' => 6
    case ';' => 7
    case '=' => 8
    case '?' => 9
    case '@' => 10
    case ' ' => 11
    case '"' => 12
    case '<' => 13
    case '>' => 14
    case '#' => 15
    case '{' => 16
    case '}' => 17
    case '|' => 18
    case '\\' => 19
    case '^' => 20
    case '~' => 21
    case '[' => 22
    case ']' => 23
    case '`' => 24
    case _ => 25
  }

  /** What the rule table says, entry by entry: each replacement names a
      reserved character and substitutes that character's table entry; only
      the first names `%`; and every reserved character is named. */
  lemma RuleFacts(k: nat)
    requires k < 25
    ensures IsReserved(RuleChar(k)) && EncodeChar(RuleChar(k)) == RuleEscape(k)
    ensures StageOf(RuleChar(k)) == k
    ensures k > 0 ==> RuleChar(k) != '%'
  {
  }

  lemma StageOfFacts(c: char)
    ensures IsReserved(c) <==> StageOf(c) < 25
    ensures IsReserved(c) ==> RuleChar(StageOf(c)) == c
  {
  }

  /** The literal chain is the 25-stage chain over the rule table. */
  lemma MakeUrlReadyIsChain(s: string)
    ensures MakeUrlReady(s) == Chain(25, s)
  {
    var t0 := ReplaceAll(s, '%', "%25");
    assert Chain(1, s) == t0;
    var t1 := ReplaceAll(t0, '$', "%24");
    assert Chain(2, s) == t1;
    var t2 := ReplaceAll(t1, '&', "%26");
    assert Chain(3, s) == t2;
    var t3 := ReplaceAll(t2, '+', "%2B");
    assert Chain(4, s) == t3;
    var t4 := ReplaceAll(t3, ',', "%2C");
    assert Chain(5, s) == t4;
    var t5 := ReplaceAll(t4, '/', "%2F");
    assert Chain(6, s) == t5;
    var t6 := ReplaceAll(t5, ':', "%eA");
    assert Chain(7, s) == t6;
    var t7 := ReplaceAll(t6, ';', "%3B");
    assert Chain(8, s) == t7;
    var t8 := ReplaceAll(t7, '=', "%3D");
    assert Chain(9, s) == t8;
    var t9 := ReplaceAll(t8, '?', "%3F");
    assert Chain(10, s) == t9;
    var t10 := ReplaceAll(t9, '@', "%40");
    assert Chain(11, s) == t10;
    var t11 := ReplaceAll(t10, ' ', "%20");
    assert Chain(12, s) == t11;
    var t12 := ReplaceAll(t11, '"', "%22");
    assert Chain(13, s) == t12;
    var t13 := ReplaceAll(t12, '<', "%3C");
    assert Chain(14, s) == t13;
    var t14 := ReplaceAll(t13, '>', "%3E");
    assert Chain(15, s) == t14;
    var t15 := ReplaceAll(t14, '#', "%23");
    assert Chain(16, s) == t15;
    var t16 := ReplaceAll(t15, '{', "%7B");
    assert Chain(17, s) == t16;
    var t17 := ReplaceAll(t16, '}', "%7D");
    assert Chain(18, s) == t17;
    var t18 := ReplaceAll(t17, '|', "%7C");
    assert Chain(19, s) == t18;
    var t19 := ReplaceAll(t18, '\\', "%5C");
    assert Chain(20, s) == t19;
    var t20 := ReplaceAll(t19, '^', "%5E");
    assert Chain(21, s) == t20;
    var t21 := ReplaceAll(t20, '~', "%7E");
    assert Chain(22, s) == t21;
    var t22 := ReplaceAll(t21, '[', "%5B");
    assert Chain(23, s) == t22;
    var t23 := ReplaceAll(t22, ']', "%5D");
    assert Chain(24, s) == t23;
    var t24 := ReplaceAll(t23, '`', "%60");
    assert Chain(25, s) == t24;
  }

  lemma {:induction false} ChainConcat(k: nat, a: string, b: string)
    requires k <= 25
    ensures Chain(k, a + b) == Chain(k, a) + Chain(k, b)
  {
    if k > 0 {
      ChainConcat(k - 1, a, b);
      ReplaceAllConcat(Chain(k - 1, a), Chain(k - 1, b), RuleChar(k - 1), RuleEscape(k - 1));
    }
  }

  /** After the first `k` replacements a single character `c` has become its
      table entry if one of them names it, and is untouched otherwise: `%` is
      replaced first and an escape holds only `%`, digits and letters, so no
      later replacement rewrites an escape. */
  lemma {:induction false} ChainChar(k: nat, c: char)
    requires k <= 25
    ensures Chain(k, [c]) == if StageOf(c) < k then EncodeChar(c) else [c]
  {
    if k > 0 {
      ChainChar(k - 1, c);
      RuleFacts(k - 1);
      StageOfFacts(c);
      var ch, rep := RuleChar(k - 1), RuleEscape(k - 1);
      if StageOf(c) < k - 1 {
        // already escaped: the escape survives this replacement
        var e := EncodeChar(c);
        assert Chain(k - 1, [c]) == e;
        assert e == [e[0], e[1], e[2]];
        assert ch != '%' && !IsEscapeDigit(ch);
        assert ch !in e;
        ReplaceAllAbsent(e, ch, rep);
      } else if StageOf(c) == k - 1 {
        // this is the replacement naming c
        assert c == ch;
        ReplaceAllSingle(c, ch, rep);
      } else {
        assert c != ch;
        ReplaceAllSingle(c, ch, rep);
      }
    }
  }

  /** The chain is a homomorphism of concatenation. */
  lemma MakeUrlReadyConcat(a: string, b: string)
    ensures MakeUrlReady(a + b) == MakeUrlReady(a) + MakeUrlReady(b)
  {
    MakeUrlReadyIsChain(a + b);
    MakeUrlReadyIsChain(a);
    MakeUrlReadyIsChain(b);
    ChainConcat(25, a, b);
  }

  /** On one character the chain yields the table entry. */
  lemma MakeUrlReadyChar(c: char)
    ensures MakeUrlReady([c]) == EncodeChar(c)
  {
    MakeUrlReadyIsChain([c]);
    ChainChar(25, c);
    StageOfFacts(c);
  }

  /** The chain as written equals the per-character table. */
  lemma {:induction false} MakeUrlReadyIsEncode(s: string)
    ensures MakeUrlReady(s) == Encode(s)
  {
    if s != [] {
      assert s == [s[0]] + s[1..];
      MakeUrlReadyConcat([s[0]], s[1..]);
      MakeUrlReadyChar(s[0]);
      MakeUrlReadyIsEncode(s[1..]);
    }
  }

  // Properties of the sanitiser, stated about the chain as written.

  /** Each reserved character maps to its fixed escape; `:` keeps the
      historical `%eA`. (Stated for a variable `c` so that the verifier does
      not try to evaluate the whole chain on a literal.) */
  lemma MakeUrlReadyKnownEscapes(c: char)
    ensures c == ' ' ==> MakeUrlReady([c]) == "%20"
    ensures c == '/' ==> MakeUrlReady([c]) == "%2F"
    ensures c == '%' ==> MakeUrlReady([c]) == "%25"
    ensures c == ':' ==> MakeUrlReady([c]) == "%eA"
    ensures c == '&' ==> MakeUrlReady([c]) == "%26"
    ensures c == '=' ==> MakeUrlReady([c]) == "%3D"
    ensures c == '?' ==> MakeUrlReady([c]) == "%3F"
  {
    MakeUrlReadyChar(c);
  }

  /** Output length grows by two for every reserved character. */
  lemma MakeUrlReadyLength(s: string)
    ensures |MakeUrlReady(s)| == |s| + 2 * CountReserved(s)
  {
    MakeUrlReadyIsEncode(s);
  }

  /** Every `%` in the table's output opens an escape the decoder knows. */
  lemma {:induction false} EncodeEscapes(s: string)
    ensures forall i :: 0 <= i < |Encode(s)| && Encode(s)[i] == '%' ==>
      i + 2 < |Encode(s)| && Unescape(Encode(s)[i + 1], Encode(s)[i + 2]).Some?
  {
    if s != [] {
      var c, t, e, rest := s[0], Encode(s), EncodeChar(s[0]), Encode(s[1..]);
      assert t == e + rest;
      EncodeEscapes(s[1..]);
      forall i | 0 <= i < |t| && t[i] == '%'
        ensures i + 2 < |t| && Unescape(t[i + 1], t[i + 2]).Some?
      {
        if i < |e| {
          assert IsReserved(c);
          assert i == 0;
          UnescapeEncodeChar(c);
        } else {
          assert t[i] == rest[i - |e|];
        }
      }
    }
  }

  /** The only reserved character left in the output is the `%` of escapes,
      and every `%` in the output opens an escape. */
  lemma MakeUrlReadyNoRawReserved(s: string)
    ensures forall i :: 0 <= i < |MakeUrlReady(s)| ==>
      MakeUrlReady(s)[i] == '%' || !IsReserved(MakeUrlReady(s)[i])
    ensures forall i :: 0 <= i < |MakeUrlReady(s)| && MakeUrlReady(s)[i] == '%' ==>
      i + 2 < |MakeUrlReady(s)| && Unescape(MakeUrlReady(s)[i + 1], MakeUrlReady(s)[i + 2]).Some?
  {
    MakeUrlReadyIsEncode(s);
    EncodeEscapes(s);
  }

  lemma {:induction false} CountReservedZero(s: string)
    ensures CountReserved(s) == 0 <==> forall i :: 0 <= i < |s| ==> !IsReserved(s[i])
  {
    if s != [] {
      CountReservedZero(s[1..]);
      assert forall i :: 1 <= i < |s| ==> s[i] == s[1..][i - 1];
    }
  }

  lemma {:induction false} EncodePassThrough(s: string)
    requires forall i :: 0 <= i < |s| ==> !IsReserved(s[i])
    ensures Encode(s) == s
  {
    if s != [] {
      assert forall i :: 0 <= i < |s[1..]| ==> s[1..][i] == s[i + 1];
      EncodePassThrough(s[1..]);
    }
  }

  /** A string is returned unchanged exactly when it holds no reserved
      character. */
  lemma MakeUrlReadyFixedPoint(s: string)
    ensures MakeUrlReady(s) == s <==> forall i :: 0 <= i < |s| ==> !IsReserved(s[i])
  {
    MakeUrlReadyIsEncode(s);
    CountReservedZero(s);
    if forall i :: 0 <= i < |s| ==> !IsReserved(s[i]) {
      EncodePassThrough(s);
    }
  }

  /** The sanitiser is not idempotent: whenever its input holds a reserved
      character, its output holds a `%`, which a second pass escapes again. */
  lemma MakeUrlReadyNotIdempotent(s: string)
    requires exists i :: 0 <= i < |s| && IsReserved(s[i])
    ensures MakeUrlReady(MakeUrlReady(s)) != MakeUrlReady(s)
  {
    var t := MakeUrlReady(s);
    MakeUrlReadyFixedPoint(s);
    MakeUrlReadyLength(s);
    CountReservedZero(s);
    assert |t| > |s|;
    // every character that is not reserved is copied, so some output
    // character is the `%` of an escape
    if forall j :: 0 <= j < |t| ==> !IsReserved(t[j]) {
      MakeUrlReadyIsEncode(s);
      EncodeNoReservedInput(s);
    }
    MakeUrlReadyFixedPoint(t);
  }

  lemma {:induction false} EncodeNoReservedInput(s: string)
    requires forall j :: 0 <= j < |Encode(s)| ==> !IsReserved(Encode(s)[j])
    ensures forall i :: 0 <= i < |s| ==> !IsReserved(s[i])
  {
    if s != [] {
      var e := EncodeChar(s[0]);
      assert Encode(s) == e + Encode(s[1..]);
      assert Encode(s)[0] == e[0];
      assert forall j :: 0 <= j < |Encode(s[1..])| ==> Encode(s[1..])[j] == Encode(s)[|e| + j];
      EncodeNoReservedInput(s[1..]);
      assert forall i :: 1 <= i < |s| ==> s[i] == s[1..][i - 1];
    }
  }

  lemma EncodeOnEscape(t: string)
    requires |t| == 3 && t[0] == '%' && IsEscapeDigit(t[1]) && IsEscapeDigit(t[2])
    ensures Encode(t) == "%25" + t[1..]
  {
    assert Encode(t) == EncodeChar(t[0]) + Encode(t[1..]);
    assert Encode(t[1..]) == [t[1]] + Encode(t[2..]);
    assert Encode(t[2..]) == [t[2]] + Encode(t[3..]);
    assert t[1..] == [t[1], t[2]];
  }

  /** Re-sanitising an escape escapes its `%` and keeps its two digits. */
  lemma MakeUrlReadyOnEscape(t: string)
    requires |t| == 3 && t[0] == '%' && IsEscapeDigit(t[1]) && IsEscapeDigit(t[2])
    ensures MakeUrlReady(t) == "%25" + t[1..]
  {
    MakeUrlReadyIsEncode(t);
    EncodeOnEscape(t);
  }

  /** Sanitising an already sanitised reserved character encodes it twice:
      for instance `" "` becomes `"%20"` and then `"%2520"`. */
  lemma MakeUrlReadyDoubleEncodes(s: string)
    requires |s| == 1 && IsReserved(s[0])
    ensures MakeUrlReady(MakeUrlReady(s)) == "%25" + MakeUrlReady(s)[1..]
  {
    MakeUrlReadyReservedChar(s);
    MakeUrlReadyOnEscape(MakeUrlReady(s));
  }

  lemma MakeUrlReadyReservedChar(s: string)
    requires |s| == 1 && IsReserved(s[0])
    ensures var t := MakeUrlReady(s); |t| == 3 && t[0] == '%' && IsEscapeDigit(t[1]) && IsEscapeDigit(t[2])
  {
    MakeUrlReadyIsEncode(s);
    assert Encode(s) == EncodeChar(s[0]) + Encode(s[1..]);
    assert s[1..] == [];
  }

  /** Decoding inverts the table. */
  lemma {:induction false} DecodeEncode(s: string)
    ensures Decode(Encode(s)) == Some(s)
  {
    if s != [] {
      var c, t := s[0], Encode(s);
      assert t == EncodeChar(c) + Encode(s[1..]);
      DecodeEncode(s[1..]);
      if IsReserved(c) {
        UnescapeEncodeChar(c);
        assert t[3..] == Encode(s[1..]);
      } else {
        assert t[1..] == Encode(s[1..]);
      }
      assert s == [c] + s[1..];
    }
  }

  /** Decoding accepts only outputs of the table: what it returns encodes
      back to its input. */
  lemma {:induction false} EncodeDecode(t: string, s: string)
    requires Decode(t) == Some(s)
    ensures Encode(s) == t
  {
    if t != [] {
      if t[0] == '%' {
        var c := Unescape(t[1], t[2]).value;
        var rest := Decode(t[3..]).value;
        EncodeDecode(t[3..], rest);
        assert s == [c] + rest;
        assert s[1..] == rest;
        assert t == ['%', t[1], t[2]] + t[3..];
      } else {
        var rest := Decode(t[1..]).value;
        EncodeDecode(t[1..], rest);
        assert s == [t[0]] + rest;
        assert s[1..] == rest;
        assert t == [t[0]] + t[1..];
      }
    }
  }

  /** A decoder recovers the input from the output of the chain. */
  lemma MakeUrlReadyRoundTrip(s: string)
    ensures Decode(MakeUrlReady(s)) == Some(s)
  {
    MakeUrlReadyIsEncode(s);
    DecodeEncode(s);
  }

  /** Consequently the sanitiser is injective. */
  lemma MakeUrlReadyInjective(a: string, b: string)
    requires MakeUrlReady(a) == MakeUrlReady(b)
    ensures a == b
  {
    MakeUrlReadyRoundTrip(a);
    MakeUrlReadyRoundTrip(b);
  }

}
