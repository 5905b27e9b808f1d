/**
 * The parts of Go's `fmt` package the program relies on: scanning a count
 * with fmt.Sscanf(token, "<word> %d", &n) and printing one with "%d".
 * Strings hold one char per byte, as in GoStrings.
 */
module GoFmt {
  import opened Wrappers
  import opened GoStrings

  /** The range of Go's 64-bit int, which fmt.Sscanf stores into. */
  const Int64Min: int := -0x8000_0000_0000_0000
  const Int64Max: int := 0x7FFF_FFFF_FFFF_FFFF

  /** The one-byte white space fmt skips within a line (never the newline). */
  const Spaces: set<char> := {' ', '\t', '\r', '\U{0B}', '\U{0C}'}

  /** The bytes fmt's %d gathers for strconv.ParseInt: decimal digits only. */
  predicate IsDigit(c: char) { '0' <= c <= '9' }

  /** The length of the longest prefix of `s` made of digits. */
  function DigitRun(s: string): (n: nat)
    ensures n <= |s|
    ensures forall k :: 0 <= k < n ==> IsDigit(s[k])
    ensures n == |s| || !IsDigit(s[n])
  {
    if |s| > 0 && IsDigit(s[0]) then 1 + DigitRun(s[1..]) else 0
  }

  /** The value of a string of decimal digits, most significant first. */
  function DigitsValue(ds: string): nat
    requires forall k :: 0 <= k < |ds| ==> IsDigit(ds[k])
  {
    if |ds| == 0 then 0
    else
      var d := ds[|ds| - 1];
      assert IsDigit(d);
      DigitsValue(ds[..|ds| - 1]) * 10 + (d as int - '0' as int)
  }

  /**
   * The unsigned part of %d: the longest run of decimal digits at the
   * start. Scanning stops at the first other byte (an underscore among
   * them); no digit at all is a scan error (None).
   */
  function ScanDigits(body: string): Option<nat>
  {
    var token := body[..DigitRun(body)];
    if token == [] then None else Some(DigitsValue(token))
  }

  /**
   * The %d verb reading into a Go int: an optional sign, then the digits.
   * A missing number or a value outside int64 is a scan error (None).
   */
  function ScanInt(s: string): (r: Option<int>)
    ensures r.Some? ==> Int64Min <= r.value <= Int64Max
  {
    var signed := |s| > 0 && (s[0] == '+' || s[0] == '-');
    var body := if signed then s[1..] else s;
    match ScanDigits(body)
    case None => None
    case Some(magnitude) =>
      var v := if signed && s[0] == '-' then -(magnitude as int) else magnitude;
      if Int64Min <= v <= Int64Max then Some(v) else None
  }

  /**
   * fmt.Sscanf(part, word + " %d", &field): the literal word, then the
   * format's space, which needs white space or the end of the input, then
   * %d after further white space. Text after the number is ignored. None
   * is a scan error, after which the field keeps its value.
   */
  function Sscanf(part: string, word: string): (r: Option<int>)
    ensures r.Some? ==> HasPrefix(part, word) && |part| > |word| && part[|word|] in Spaces
    ensures r.Some? ==> Int64Min <= r.value <= Int64Max
  {
    if !HasPrefix(part, word) then None
    else
      var rest := part[|word|..];
      if rest != [] && rest[0] !in Spaces then None
      else ScanInt(TrimLeft(rest, Spaces))
  }

  // ---------------------------------------------------------------------
  // Printing with %d

  /** The ASCII digit for `d`. */
  function DigitChar(d: nat): (c: char)
    requires d < 10
    ensures IsDigit(c)
  {
    ('0' as int + d) as char
  }

  /** fmt's %d for a non-negative int: decimal digits, no leading zero. */
  function DecimalString(n: nat): (s: string)
    ensures |s| >= 1
    ensures forall k :: 0 <= k < |s| ==> IsDigit(s[k])
    ensures |s| > 1 ==> s[0] != '0'
    decreases n
  {
    if n < 10 then [DigitChar(n)] else DecimalString(n / 10) + [DigitChar(n % 10)]
  }

  /** Reading back the digits %d printed gives the number. */
  lemma {:induction false} DigitsValueOfDecimal(n: nat)
    ensures DigitsValue(DecimalString(n)) == n
    decreases n
  {
    if n >= 10 {
      var s := DecimalString(n);
      assert s[..|s| - 1] == DecimalString(n / 10);
      DigitsValueOfDecimal(n / 10);
    }
  }

  /** The digit run of `ds + rest` is `ds` when `rest` does not go on with a digit. */
  lemma {:induction false} DigitRunOfDigits(ds: string, rest: string)
    requires forall k :: 0 <= k < |ds| ==> IsDigit(ds[k])
    requires rest == [] || !IsDigit(rest[0])
    ensures DigitRun(ds + rest) == |ds|
    decreases |ds|
  {
    if ds != [] {
      assert (ds + rest)[1..] == ds[1..] + rest;
      DigitRunOfDigits(ds[1..], rest);
    } else {
      assert ds + rest == rest;
    }
  }

  /**
   * %d scans back what %d printed, whatever follows that is not a digit,
   * as long as the number fits in an int64; a larger one is a scan error.
   */
  lemma ScanDigitsOfDecimal(n: nat, rest: string)
    requires rest == [] || !IsDigit(rest[0])
    ensures ScanDigits(DecimalString(n) + rest) == Some(n)
  {
    var ds := DecimalString(n);
    DigitRunOfDigits(ds, rest);
    DigitsValueOfDecimal(n);
    assert (ds + rest)[..|ds|] == ds;
  }

  lemma ScanIntOfDecimal(n: nat, rest: string)
    requires rest == [] || !IsDigit(rest[0])
    ensures n <= Int64Max ==> ScanInt(DecimalString(n) + rest) == Some(n)
    ensures n > Int64Max ==> ScanInt(DecimalString(n) + rest) == None
  {
    var ds := DecimalString(n);
    ScanDigitsOfDecimal(n, rest);
    assert (ds + rest)[0] == ds[0];
  }

  /** After a minus sign %d reads the digits and negates them. */
  lemma ScanIntMinus(s: string, magnitude: nat)
    requires |s| > 0 && s[0] == '-'
    requires ScanDigits(s[1..]) == Some(magnitude) && magnitude <= Int64Max
    ensures ScanInt(s) == Some(-(magnitude as int))
  {
  }

  /** %d accepts a minus sign: "-" and the digits of n read back as -n. */
  lemma ScanIntOfNegative(n: nat, rest: string)
    requires n <= Int64Max
    requires rest == [] || !IsDigit(rest[0])
    ensures ScanInt("-" + DecimalString(n) + rest) == Some(-(n as int))
  {
    var s := "-" + DecimalString(n) + rest;
    assert s[1..] == DecimalString(n) + rest;
    ScanDigitsOfDecimal(n, rest);
    ScanIntMinus(s, n);
  }

  /** After the word and a space Sscanf skips the white space and scans the rest. */
  lemma SscanfAfterSpace(s: string, word: string, t: string)
    requires s == word + " " + t
    ensures Sscanf(s, word) == ScanInt(TrimLeft(t, Spaces))
  {
    assert s[..|word|] == word;
    assert s[|word|..] == [' '] + t;
    assert ([' '] + t)[1..] == t;
  }

  /** Sscanf(word + " " + digits, word + " %d") reads the number back. */
  lemma SscanfOfDecimal(word: string, n: nat, rest: string)
    requires n <= Int64Max
    requires rest == [] || !IsDigit(rest[0])
    ensures Sscanf(word + " " + DecimalString(n) + rest, word) == Some(n)
  {
    var ds := DecimalString(n);
    var t := ds + rest;
    assert word + " " + ds + rest == word + " " + t;
    SscanfAfterSpace(word + " " + t, word, t);
    assert t[0] == ds[0] && ds[0] !in Spaces;
    ScanIntOfDecimal(n, rest);
  }

  /** Sscanf(word + " -" + digits, word + " %d") reads the negative number. */
  lemma SscanfOfNegative(word: string, n: nat)
    requires n <= Int64Max
    ensures Sscanf(word + " " + ("-" + DecimalString(n)), word) == Some(-(n as int))
  {
    var t := "-" + DecimalString(n);
    assert ScanInt(t) == Some(-(n as int)) by {
      assert t == "-" + DecimalString(n) + "";
      ScanIntOfNegative(n, "");
    }
    assert TrimLeft(t, Spaces) == t by {
      TrimLeftUnchanged(t, Spaces);
    }
    SscanfAfterSpace(word + " " + t, word, t);
  }
}
