/** Digits by their position in the digit strings, and indifference to case. */
module InetCase {
  import opened Common
  import opened InetPton

  const DIGITS := "0123456789"
  const XDIGITS_L := "0123456789abcdef"
  const XDIGITS_U := "0123456789ABCDEF"

  /** `strchr` in the string of decimal digits. */
  lemma DecValueExactly(c: char)
    ensures forall v :: 0 <= v < 10 ==> (DecValue(c) == Some(v) <==> DIGITS[v] == c)
    ensures DecValue(c).None? <==> c !in DIGITS
  {
    var d := DecValue(c);
    assert forall v :: 0 <= v < 10 ==> DIGITS[v] as int == '0' as int + v;
    if d.Some? { assert DIGITS[d.value] == c; }
  }

  /** `strchr` in the two strings of hexadecimal digits. */
  lemma HexValueExactly(c: char)
    ensures forall v :: 0 <= v < 16 ==> (HexValue(c) == Some(v) <==> XDIGITS_L[v] == c || XDIGITS_U[v] == c)
    ensures HexValue(c).None? <==> c !in XDIGITS_L && c !in XDIGITS_U
  {
    var h := HexValue(c);
    assert forall v :: 0 <= v < 16 ==> XDIGITS_L[v] as int == if v < 10 then '0' as int + v else 'a' as int + v - 10;
    assert forall v :: 0 <= v < 16 ==> XDIGITS_U[v] as int == if v < 10 then '0' as int + v else 'A' as int + v - 10;
    if h.Some? { assert XDIGITS_L[h.value] == c || XDIGITS_U[h.value] == c; }
  }

  /** The upper-case form of a hexadecimal digit; other characters are left alone. */
  function UpperChar(c: char): char {
    if 'a' <= c <= 'f' then (c as int - 'a' as int + 'A' as int) as char else c
  }

  lemma UpperExactly(c: char)
    ensures forall v :: 0 <= v < 16 && c == XDIGITS_L[v] ==> UpperChar(c) == XDIGITS_U[v]
    ensures c !in XDIGITS_L ==> UpperChar(c) == c
  {
    assert forall v :: 0 <= v < 16 ==> XDIGITS_L[v] as int == if v < 10 then '0' as int + v else 'a' as int + v - 10;
    if 'a' <= c <= 'f' { assert XDIGITS_L[c as int - 'a' as int + 10] == c; }
  }

  function Upper(s: string): (u: string)
    ensures |u| == |s| && forall i :: 0 <= i < |s| ==> u[i] == UpperChar(s[i])
  {
    seq(|s|, i requires 0 <= i < |s| => UpperChar(s[i]))
  }

  lemma UpperSame(c: char)
    ensures HexValue(UpperChar(c)) == HexValue(c) && DecValue(UpperChar(c)) == DecValue(c)
    ensures UpperChar(c) == ':' <==> c == ':'
    ensures UpperChar(c) == '.' <==> c == '.'
    ensures UpperChar(c) == '\0' <==> c == '\0'
  {
  }

  lemma UpperRest(s: string)
    ensures AtEnd(Upper(s)) <==> AtEnd(s)
    ensures s != [] ==> Upper(s)[0] == UpperChar(s[0]) && Upper(s)[1..] == Upper(s[1..])
  {
    if s != [] { UpperSame(s[0]); }
  }

  lemma {:induction false} UpperScan4(s: State4)
    requires s.Valid()
    ensures Scan4(s.(rest := Upper(s.rest))) == Scan4(s)
    decreases |s.rest|
  {
    UpperRest(s.rest);
    if s.rest != [] { UpperSame(s.rest[0]); }
    hide DecValue, UpperChar, Upper;
    var step := Step4(s);
    if step.Go? { UpperScan4(step.state); }
  }

  lemma {:induction false} UpperScan6(st: State6)
    requires st.s.Valid()
    ensures Scan6(st.(rest := Upper(st.rest), tok := Upper(st.tok))) == Scan6(st)
    decreases |st.rest|
  {
    UpperRest(st.rest);
    if st.rest != [] { UpperSame(st.rest[0]); }
    UpperScan4(State4(st.tok, [], 0, false));
    hide HexValue, UpperChar, Upper, Scan4;
    var step := Step6(st);
    if step.Go? { UpperScan6(step.state); }
  }

  /** The case of hexadecimal digits does not matter. */
  lemma CaseIgnored(src: string)
    ensures Pton6(Upper(src)) == Pton6(src)
  {
    if src != [] { UpperSame(src[0]); }
    if 1 < |src| { UpperSame(src[1]); }
    assert src != [] ==> Upper(src)[1..] == Upper(src[1..]);
    assert Upper(src)[0..] == Upper(src) && src[0..] == src;
    var text := if CharAt(src, 0) == ':' then src[1..] else src;
    UpperScan6(State6(text, text, 0, false, Scanned([], None)));
  }
}
