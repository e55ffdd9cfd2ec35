/** An assumed model of the base-62 codec that the identifier generator
    requires as `./base62`. That module's text is not part of this model, so
    the alphabet order below is a documented choice: digit values 0..9 are
    '0'..'9', 10..35 are 'a'..'z', 36..61 are 'A'..'Z'. */
module Base62 {

  const Base: nat := 62

  datatype Option<T> = None | Some(value: T)

  datatype Error = InvalidArgument(bad: char)

  datatype Result<T> = Ok(value: T) | Err(error: Error)

  /** 62 to the power e: the number of values that e digits can hold. */
  function Pow(e: nat): (r: nat)
    ensures r >= 1
    ensures e >= 1 ==> r >= Base
  {
    if e == 0 then 1 else Base * Pow(e - 1)
  }

  /** The characters of the alphabet: [0-9a-zA-Z], all safe in keys, file names and URLs. */
  predicate IsDigitChar(c: char) {
    ('0' <= c <= '9') || ('a' <= c <= 'z') || ('A' <= c <= 'Z')
  }

  /** The digit value of a character, or None for a character outside the alphabet. */
  function DigitValue(c: char): (r: Option<nat>)
    ensures r.Some? <==> IsDigitChar(c)
    ensures r.Some? ==> r.value < Base
  {
    if '0' <= c <= '9' then Some(c as int - '0' as int)
    else if 'a' <= c <= 'z' then Some(c as int - 'a' as int + 10)
    else if 'A' <= c <= 'Z' then Some(c as int - 'A' as int + 36)
    else None
  }

  /** The character that writes digit value d. */
  function DigitChar(d: nat): (c: char)
    requires d < Base
    ensures IsDigitChar(c) && DigitValue(c) == Some(d)
  {
    if d < 10 then ('0' as int + d) as char
    else if d < 36 then ('a' as int + d - 10) as char
    else ('A' as int + d - 36) as char
  }

  /** toBase62(n, w): n in base 62, most significant digit first, from the
      remainders of repeated division by 62; positions that n does not fill up
      to width w hold the zero digit. A value that needs more than w digits
      keeps all of them (no truncation, no error); zero is at least "0". */
  function ToBase62(n: nat, w: nat): (s: string)
    ensures |s| >= 1 && |s| >= w
    decreases n, w
  {
    if n < Base && w <= 1 then [DigitChar(n)]
    else ToBase62(n / Base, if w == 0 then 0 else w - 1) + [DigitChar(n % Base)]
  }

  /** fromBase62(s): the number s denotes, read left to right
      (value := value * 62 + digit); fails with InvalidArgument naming the first
      character outside the alphabet. */
  function FromBase62(s: string): (r: Result<nat>)
    ensures r.Err? ==> !IsDigitChar(r.error.bad)
  {
    if s == [] then Ok(0)
    else
      match FromBase62(s[..|s| - 1])
      case Err(e) => Err(e)
      case Ok(v) =>
        match DigitValue(s[|s| - 1])
        case None => Err(InvalidArgument(s[|s| - 1]))
        case Some(d) => Ok(v * Base + d)
  }

  // ---------------------------------------------------------------------------
  // Lemmas

  /** Every character of an encoding is in the alphabet [0-9a-zA-Z]. */
  lemma {:induction false} EncodingAlphabet(n: nat, w: nat)
    ensures forall i :: 0 <= i < |ToBase62(n, w)| ==> IsDigitChar(ToBase62(n, w)[i])
    decreases n, w
  {
    if !(n < Base && w <= 1) {
      EncodingAlphabet(n / Base, if w == 0 then 0 else w - 1);
    }
  }

  /** Decoding fails exactly when some character is outside the alphabet, and
      the error names a character of the input. */
  lemma {:induction false} DecodeFails(s: string)
    ensures FromBase62(s).Err? <==> exists i :: 0 <= i < |s| && !IsDigitChar(s[i])
    ensures FromBase62(s).Err? ==> FromBase62(s).error.bad in s
    decreases |s|
  {
    if s != [] {
      var init := s[..|s| - 1];
      DecodeFails(init);
      if exists i :: 0 <= i < |init| && !IsDigitChar(init[i]) {
        var i :| 0 <= i < |init| && !IsDigitChar(init[i]);
        assert s[i] == init[i];
      }
      if FromBase62(init).Err? {
        assert FromBase62(init).error.bad in init;
      }
      forall i | 0 <= i < |init|
        ensures s[i] == init[i]
      {
      }
    }
  }

  /** Round trip: decoding the encoding of n at any width gives back n. */
  lemma {:induction false} RoundTrip(n: nat, w: nat)
    ensures FromBase62(ToBase62(n, w)) == Ok(n)
    decreases n, w
  {
    var s := ToBase62(n, w);
    if n < Base && w <= 1 {
      assert s[..0] == [];
    } else {
      var init := ToBase62(n / Base, if w == 0 then 0 else w - 1);
      RoundTrip(n / Base, if w == 0 then 0 else w - 1);
      assert s[..|s| - 1] == init;
      assert (n / Base) * Base + n % Base == n;
    }
  }

  /** Encodings at one width are distinct for distinct values. */
  lemma {:induction false} EncodeInjective(m: nat, n: nat, w: nat)
    requires ToBase62(m, w) == ToBase62(n, w)
    ensures m == n
  {
    RoundTrip(m, w);
    RoundTrip(n, w);
  }

  /** Fixed width: for w >= 1 the encoding is exactly w characters long
      exactly when n fits in w digits (n < 62^w); otherwise it is longer. */
  lemma {:induction false} FixedWidth(n: nat, w: nat)
    requires w >= 1
    ensures |ToBase62(n, w)| == w <==> n < Pow(w)
    decreases n, w
  {
    if !(n < Base && w <= 1) {
      if w == 1 {
        assert |ToBase62(n, w)| == |ToBase62(n / Base, 0)| + 1;
      } else {
        FixedWidth(n / Base, w - 1);
        assert Pow(w) == Base * Pow(w - 1);
      }
    }
  }

  /** Padding is by the zero character: one more position of width in front of
      a value that already fits puts a '0' in front of its encoding. */
  lemma {:induction false} PadsWithZero(n: nat, w: nat)
    requires w >= 1 && n < Pow(w)
    ensures ToBase62(n, w + 1) == ['0'] + ToBase62(n, w)
    decreases w
  {
    if w == 1 {
      assert ToBase62(n, w + 1) == ToBase62(0, 1) + [DigitChar(n)];
    } else {
      assert Pow(w) == Base * Pow(w - 1);
      PadsWithZero(n / Base, w - 1);
    }
  }

  /** Appending the two characters "00" to a valid string multiplies its
      value by 62^2 = 3844; an invalid string stays invalid with the same error. */
  lemma {:induction false} AppendTwoZeros(s: string)
    ensures FromBase62(s + "00") ==
              match FromBase62(s)
              case Ok(v) => Ok(v * Pow(2))
              case Err(e) => Err(e)
  {
    var s1 := s + "0";
    var s2 := s + "00";
    assert s2[..|s2| - 1] == s1;
    assert s1[..|s1| - 1] == s;
    assert Pow(2) == 3844;
  }

  /** The seeding identity: the tick count q written as 6 digits with "00"
      appended decodes to q * 62^2, whatever the size of q. */
  lemma {:induction false} ShiftByTwoDigits(q: nat)
    ensures FromBase62(ToBase62(q, 6) + "00") == Ok(q * Pow(2))
  {
    RoundTrip(q, 6);
    AppendTwoZeros(ToBase62(q, 6));
  }
}
