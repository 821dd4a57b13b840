/**
 * Textual rendering of IPv4 addresses as `snprintf("%d.%d.%d.%d", ...)`
 * produces it, and the parse that inverts it. IPv6 rendering (`inet_ntop`)
 * is left abstract elsewhere in the model.
 */
module Text {
  import opened Wire

  predicate IsDigit(ch: char)
  {
    '0' <= ch <= '9'
  }

  predicate AllDigits(s: string)
  {
    forall i :: 0 <= i < |s| ==> IsDigit(s[i])
  }

  function DigitChar(d: nat): (ch: char)
    requires d < 10
    ensures IsDigit(ch) && ch as int - '0' as int == d
  {
    ('0' as int + d) as char
  }

  /** `%d` of a non-negative value: decimal digits, no sign, no leading zero. */
  function DecimalText(n: nat): (s: string)
    ensures 1 <= |s| && AllDigits(s)
    ensures s[0] == '0' ==> n == 0
    ensures n < 10 ==> |s| == 1
    ensures n < 100 ==> |s| <= 2
    ensures n < 1000 ==> |s| <= 3
    decreases n
  {
    if n < 10 then [DigitChar(n)] else DecimalText(n / 10) + [DigitChar(n % 10)]
  }

  /** The value of a string of decimal digits. */
  function DecimalValue(s: string): nat
    requires AllDigits(s)
  {
    if s == [] then 0 else DecimalValue(s[..|s| - 1]) * 10 + (s[|s| - 1] as int - '0' as int)
  }

  lemma {:induction false} DecimalRoundTrip(n: nat)
    ensures DecimalValue(DecimalText(n)) == n
    decreases n
  {
    if n >= 10 {
      DecimalRoundTrip(n / 10);
      var s := DecimalText(n);
      assert s[..|s| - 1] == DecimalText(n / 10);
    }
  }

  /** The dotted-quad text of four address bytes. */
  function DottedQuad(a: seq<byte>): (s: string)
    requires |a| == 4
    ensures 7 <= |s| <= 15
  {
    DecimalText(a[0] as nat) + "." + DecimalText(a[1] as nat) + "."
      + DecimalText(a[2] as nat) + "." + DecimalText(a[3] as nat)
  }

  /** The pieces of `s` between '.' separators (always at least one). */
  function SplitDots(s: string): (parts: seq<string>)
    ensures |parts| >= 1
  {
    if s == [] then [[]]
    else
      var rest := SplitDots(s[1..]);
      if s[0] == '.' then [[]] + rest else [[s[0]] + rest[0]] + rest[1..]
  }

  lemma {:induction false} SplitDotsNoDot(x: string)
    requires AllDigits(x)
    ensures SplitDots(x) == [x]
  {
    if x != [] {
      SplitDotsNoDot(x[1..]);
      assert [x[0]] + x[1..] == x;
    }
  }

  lemma {:induction false} SplitDotsAfter(x: string, y: string)
    requires AllDigits(x)
    ensures SplitDots(x + "." + y) == [x] + SplitDots(y)
  {
    if x == [] {
      assert x + "." + y == ['.'] + y;
      assert (['.'] + y)[1..] == y;
    } else {
      var s := x + "." + y;
      assert s[1..] == x[1..] + "." + y;
      SplitDotsAfter(x[1..], y);
      assert [x[0]] + x[1..] == x;
    }
  }

  /** One decimal component of at most three digits, value below 256. */
  function ParseOctet(s: string): Option<byte>
  {
    if 1 <= |s| <= 3 && AllDigits(s) && DecimalValue(s) < 256 then Some(DecimalValue(s) as byte) else None
  }

  /** Inverse of DottedQuad: four dot-separated octets. */
  function ParseDottedQuad(s: string): Option<seq<byte>>
  {
    var parts := SplitDots(s);
    if |parts| != 4 then None
    else
      match (ParseOctet(parts[0]), ParseOctet(parts[1]), ParseOctet(parts[2]), ParseOctet(parts[3]))
      case (Some(a), Some(b), Some(c), Some(d)) => Some([a, b, c, d])
      case _ => None
  }

  lemma OctetRoundTrip(b: byte)
    ensures ParseOctet(DecimalText(b as nat)) == Some(b)
  {
    DecimalRoundTrip(b as nat);
  }

  /** Rendering loses nothing: the four bytes are recovered from the text. */
  lemma DottedQuadRoundTrip(a: seq<byte>)
    requires |a| == 4
    ensures ParseDottedQuad(DottedQuad(a)) == Some(a)
  {
    var t0, t1, t2, t3 := DecimalText(a[0] as nat), DecimalText(a[1] as nat),
                          DecimalText(a[2] as nat), DecimalText(a[3] as nat);
    assert DottedQuad(a) == t0 + "." + (t1 + "." + (t2 + "." + t3));
    SplitDotsAfter(t0, t1 + "." + (t2 + "." + t3));
    SplitDotsAfter(t1, t2 + "." + t3);
    SplitDotsAfter(t2, t3);
    SplitDotsNoDot(t3);
    OctetRoundTrip(a[0]);
    OctetRoundTrip(a[1]);
    OctetRoundTrip(a[2]);
    OctetRoundTrip(a[3]);
    assert [a[0], a[1], a[2], a[3]] == a;
  }

  /** The documentation address 192.0.2.1 renders as expected. */
  lemma DottedQuadExample()
    ensures DottedQuad([192, 0, 2, 1]) == "192.0.2.1"
  {
    assert DecimalText(192) == "192" by {
      assert DecimalText(19) == "19";
    }
  }
}
