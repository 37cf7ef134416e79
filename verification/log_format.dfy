/**
 The text of one transaction-log entry written by `add_item`:
 "Added <qty> of <item>", with the quantity in Python's `str(int)` decimal form.
 The timestamp prefix the source puts in front of it is not modelled.
 */
module LogFormat {

  /** True when every character of `s` is an ASCII decimal digit. */
  predicate IsDigits(s: string)
  {
    forall i :: 0 <= i < |s| ==> '0' <= s[i] <= '9'
  }

  function DigitChar(d: nat): (c: char)
    requires d < 10
    ensures '0' <= c <= '9'
    ensures c as int - '0' as int == d
  {
    ('0' as int + d) as char
  }

  /** Decimal digits of `n`, most significant first, without leading zeros. */
  function NatToString(n: nat): (s: string)
    ensures |s| > 0 && IsDigits(s)
    ensures |s| > 1 ==> s[0] != '0'
    decreases n
  {
    if n < 10 then [DigitChar(n)]
    else NatToString(n / 10) + [DigitChar(n % 10)]
  }

  /** Python's `str(n)` for an integer: a minus sign, then the digits of |n|. */
  function IntToString(n: int): (s: string)
    ensures |s| > 0
    ensures ' ' !in s
    ensures (s[0] == '-') == (n < 0)
    ensures n >= 0 ==> IsDigits(s) && (|s| > 1 ==> s[0] != '0')
    ensures n < 0 ==> |s| > 1 && IsDigits(s[1..]) && s[1] != '0'
  {
    if n < 0 then "-" + NatToString(-n) else NatToString(n)
  }

  /** Value of a string of decimal digits; the inverse of NatToString. */
  function ParseNat(s: string): (n: nat)
    requires IsDigits(s)
  {
    if s == [] then 0
    else ParseNat(s[..|s| - 1]) * 10 + (s[|s| - 1] as int - '0' as int)
  }

  /** Value of an optionally signed decimal; the inverse of IntToString. */
  function ParseInt(s: string): (n: int)
    requires IsDigits(s) || (|s| > 0 && s[0] == '-' && IsDigits(s[1..]))
  {
    if |s| > 0 && s[0] == '-' then -(ParseNat(s[1..]) as int) else ParseNat(s)
  }

  lemma {:induction false} ParseNatToString(n: nat)
    ensures ParseNat(NatToString(n)) == n
  {
    if n >= 10 {
      ParseNatToString(n / 10);
      var s := NatToString(n);
      assert s[..|s| - 1] == NatToString(n / 10);
    }
  }

  /** The quantity written into a log entry reads back as the quantity given. */
  lemma ParseIntToString(n: int)
    ensures ParseInt(IntToString(n)) == n
  {
    if n < 0 {
      ParseNatToString(-n);
      assert IntToString(n)[1..] == NatToString(-n);
    } else {
      ParseNatToString(n);
    }
  }

  /** The log entry appended by a successful `add_item(stock, item, qty)`. */
  function Entry(qty: int, item: string): (e: string)
    ensures |e| > 10 + |item|
    ensures e[..6] == "Added " && e[|e| - |item|..] == item
  {
    "Added " + IntToString(qty) + " of " + item
  }

  /** The characters of `s` up to its first space. */
  function FirstWord(s: string): (w: string)
  {
    if s == [] || s[0] == ' ' then [] else [s[0]] + FirstWord(s[1..])
  }

  lemma {:induction false} FirstWordOf(w: string, rest: string)
    requires ' ' !in w
    ensures FirstWord(w + " " + rest) == w
  {
    if w != [] {
      assert (w + " " + rest)[1..] == w[1..] + " " + rest;
      FirstWordOf(w[1..], rest);
    }
  }

  /** Reading an entry back: its first word after "Added " is the quantity, and the item follows " of ". */
  lemma EntryFields(qty: int, item: string)
    ensures var e, q := Entry(qty, item), IntToString(qty);
            FirstWord(e[6..]) == q && e[6 + |q|..6 + |q| + 4] == " of " && e[6 + |q| + 4..] == item
  {
    var e, q := Entry(qty, item), IntToString(qty);
    assert e[6..] == q + " " + ("of " + item);
    FirstWordOf(q, "of " + item);
  }

  /**
   A log entry determines the quantity and the item it records: two
   additions that write the same entry added the same quantity of the same item.
   */
  lemma EntryInjective(qty1: int, item1: string, qty2: int, item2: string)
    requires Entry(qty1, item1) == Entry(qty2, item2)
    ensures qty1 == qty2 && item1 == item2
  {
    EntryFields(qty1, item1);
    EntryFields(qty2, item2);
    assert IntToString(qty1) == IntToString(qty2);
    ParseIntToString(qty1);
    ParseIntToString(qty2);
  }
}
