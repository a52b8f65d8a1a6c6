/**
 * The short-code encoder of services.py: `base_encode` exactly as it is
 * written, and, for comparison, the positional base-N encoding that its
 * doc comment describes.
 */
module Codec {
  import opened Wrappers

  const DIGITS: string := "0123456789"
  const LOWER_CASE: string := "abcdefghijklmnopqrstuvwxyz"
  const UPPER_CASE: string := "ABCDEFGHIJKLMNOPQRSTUVWXYZ"

  /**
   * The alphabet short codes are drawn from: the ten digits, then the
   * lower-case letters, then the upper-case letters, as one 62-symbol string.
   */
  const BASE62_ALPHABET: string := DIGITS + LOWER_CASE + UPPER_CASE

  /** The elements of `s` in the opposite order (Python's `list.reverse`). */
  function Reversed(s: seq<char>): seq<char>
  {
    if s == [] then [] else [s[|s| - 1]] + Reversed(s[..|s| - 1])
  }

  lemma ReversedSingleton(c: char)
    ensures Reversed([c]) == [c]
  {
    assert [c][..0] == [];
  }

  lemma ReversedSnoc(s: seq<char>, c: char)
    ensures Reversed(s + [c]) == [c] + Reversed(s)
  {
    assert (s + [c])[..|s|] == s;
  }

  // ---------------------------------------------------------------------
  // base_encode as written
  // ---------------------------------------------------------------------

  /**
   * What `base_encode` returns. Zero gives the first symbol; a positive
   * number gives the one symbol of its last base-N digit, because the
   * reversal and the `return` sit inside the division loop; a negative
   * number skips the loop and the function falls off its end (`None`).
   */
  function AsWritten(num: int, alphabet: string): (code: Option<string>)
    requires num < 0 || |alphabet| > 0
    ensures code.None? <==> num < 0
    ensures code.Some? ==> |code.value| == 1
  {
    if num == 0 then Some([alphabet[0]])
    else if num > 0 then Some([alphabet[num % |alphabet|]])
    else None
  }

  /**
   * `base_encode` as written, loop and all. With an empty alphabet the
   * source raises (IndexError or ZeroDivisionError) for every `num >= 0`,
   * which is what the precondition excludes. The source's `return` inside
   * the loop body is the assignment to `returned`, which ends the loop
   * after its first pass; a loop that never runs leaves `None`.
   */
  method BaseEncode(num: int, alphabet: string := BASE62_ALPHABET) returns (code: Option<string>)
    requires num < 0 || |alphabet| > 0
    ensures code == AsWritten(num, alphabet)
  {
    if num == 0 {
      return Some([alphabet[0]]);
    }
    var arr: seq<char> := [];
    var base := |alphabet|;
    var n := num;
    var returned: Option<string> := None;
    while n > 0 && returned.None?
      invariant returned.None? ==> n == num && arr == []
      invariant returned.Some? ==> returned == AsWritten(num, alphabet)
      decreases if returned.None? then 1 else 0
    {
      var rem := n % base;
      arr := arr + [alphabet[rem]];
      n := n / base;
      ReversedSingleton(alphabet[rem]);
      arr := Reversed(arr);
      assert arr == [alphabet[num % base]];
      returned := Some(arr);
    }
    return returned;
  }

  /** Every non-negative number is encoded as one symbol of the alphabet. */
  lemma AsWrittenIsOneSymbol(num: nat, alphabet: string)
    requires |alphabet| > 0
    ensures AsWritten(num, alphabet).Some?
    ensures |AsWritten(num, alphabet).value| == 1
    ensures AsWritten(num, alphabet).value[0] == alphabet[num % |alphabet|]
    ensures AsWritten(num, alphabet).value[0] in alphabet
  {
  }

  /** Numbers that differ by the base get the same code: the encoder is periodic. */
  lemma AsWrittenPeriodic(num: nat, alphabet: string)
    requires |alphabet| > 0
    ensures AsWritten(num + |alphabet|, alphabet) == AsWritten(num, alphabet)
  {
    var base := |alphabet|;
    ModUnique(num + base, base, num / base + 1, num % base);
  }

  /** The concrete collision: 62 and 0 are both encoded as "0", and 63 and 1 as "1". */
  lemma AsWrittenCollides()
    ensures AsWritten(62, BASE62_ALPHABET) == AsWritten(0, BASE62_ALPHABET) == Some("0")
    ensures AsWritten(63, BASE62_ALPHABET) == AsWritten(1, BASE62_ALPHABET) == Some("1")
  {
    var a := BASE62_ALPHABET;
    assert |a| == 62 && a[0] == '0' && a[1] == '1';
    assert 62 % 62 == 0 && 63 % 62 == 1;
  }

  /** Hence the encoder is not injective on the non-negative numbers. */
  lemma AsWrittenNotInjective(alphabet: string)
    requires |alphabet| > 0
    ensures exists m: nat, n: nat :: m != n && AsWritten(m, alphabet) == AsWritten(n, alphabet)
  {
    AsWrittenPeriodic(0, alphabet);
    assert AsWritten(0 + |alphabet|, alphabet) == AsWritten(0, alphabet);
  }

  /**
   * The code as written agrees with the positional encoding exactly on the
   * one-digit numbers: from the base upwards it drops every digit but the last.
   */
  lemma AsWrittenAgreesBelowBase(num: nat, alphabet: string)
    requires |alphabet| >= 2
    ensures AsWritten(num, alphabet) == Some(Encode(num, alphabet)) <==> num < |alphabet|
  {
    var base := |alphabet|;
    DivMod(num, base);
    if 0 < num < base {
      ModUnique(num, base, 0, num);
      assert Symbols(0, alphabet) == [];
      assert Symbols(num, alphabet) == [alphabet[num]];
      assert Encode(num, alphabet) == [alphabet[num % base]];
    } else if num >= base {
      SymbolsFacts(num / base, alphabet);
      assert |Symbols(num, alphabet)| >= 2;
    }
  }

  // ---------------------------------------------------------------------
  // Corrected variant (not the source): positional base-N encoding
  // ---------------------------------------------------------------------

  /** Euclidean division by a base of at least two. */
  lemma DivMod(n: nat, b: nat)
    requires b >= 2
    ensures n == (n / b) * b + n % b && 0 <= n % b < b
    ensures n / b < n || n == 0
    ensures n >= b ==> 1 <= n / b
  {
  }

  /** Quotient and remainder are determined by `n == q * b + r` with `0 <= r < b`. */
  lemma ModUnique(n: int, b: int, q: int, r: int)
    requires b >= 1 && 0 <= r < b && n == q * b + r
    ensures n % b == r && n / b == q
  {
    var q', r' := n / b, n % b;
    assert (q - q') * b == r' - r;
    if q > q' {
      MulMonotone(1, q - q', b);
    } else if q < q' {
      MulMonotone(1, q' - q, b);
    }
  }

  lemma MulMonotone(x: int, y: int, b: int)
    requires x <= y && b >= 0
    ensures x * b <= y * b
  {
  }

  /** `b` to the power `e`. */
  function Pow(b: nat, e: nat): nat
  {
    if e == 0 then 1 else b * Pow(b, e - 1)
  }

  /** No symbol occurs twice in the alphabet, so each symbol names one digit. */
  predicate Distinct(alphabet: string)
  {
    forall i, j :: 0 <= i < j < |alphabet| ==> alphabet[i] != alphabet[j]
  }

  /**
   * The base-N digits of `n` as symbols, most significant first, without
   * leading zeros: empty for zero. These are what the division loop still
   * has to produce while `n` is left over.
   */
  function Symbols(n: nat, alphabet: string): string
    requires |alphabet| >= 2
    decreases n
  {
    if n == 0 then [] else Symbols(n / |alphabet|, alphabet) + [alphabet[n % |alphabet|]]
  }

  /** A positive number has at least one digit, and every digit is a symbol of the alphabet. */
  lemma {:induction false} SymbolsFacts(n: nat, alphabet: string)
    requires |alphabet| >= 2
    ensures n > 0 <==> |Symbols(n, alphabet)| >= 1
    ensures forall i :: 0 <= i < |Symbols(n, alphabet)| ==> Symbols(n, alphabet)[i] in alphabet
    decreases n
  {
    if n > 0 {
      DivMod(n, |alphabet|);
      SymbolsFacts(n / |alphabet|, alphabet);
    }
  }

  /**
   * The positional encoding of `num`: what the doc comment of
   * `base_encode` promises. Zero is the first symbol.
   */
  function Encode(num: nat, alphabet: string): (code: string)
    requires |alphabet| >= 2
    ensures |code| >= 1
    ensures forall i :: 0 <= i < |code| ==> code[i] in alphabet
  {
    SymbolsFacts(num, alphabet);
    if num == 0 then [alphabet[0]] else Symbols(num, alphabet)
  }

  /**
   * The index of the first occurrence of `c` in `alphabet`, or the length
   * of the alphabet when `c` is not one of its symbols.
   */
  function IndexOf(c: char, alphabet: string): (i: nat)
    ensures i <= |alphabet|
    ensures i < |alphabet| <==> c in alphabet
    ensures i < |alphabet| ==> alphabet[i] == c
    ensures forall j :: 0 <= j < i ==> alphabet[j] != c
  {
    if alphabet == [] then 0
    else if alphabet[0] == c then 0
    else 1 + IndexOf(c, alphabet[1..])
  }

  /** The number a positional code stands for (the source has no decoder). */
  function Decode(code: string, alphabet: string): nat
  {
    if code == [] then 0
    else Decode(code[..|code| - 1], alphabet) * |alphabet| + IndexOf(code[|code| - 1], alphabet)
  }

  /** Decoding the digits of `n` gives back `n`. */
  lemma {:induction false} DecodeSymbols(n: nat, alphabet: string)
    requires |alphabet| >= 2 && Distinct(alphabet)
    ensures Decode(Symbols(n, alphabet), alphabet) == n
    decreases n
  {
    if n > 0 {
      var base := |alphabet|;
      var q, r := n / base, n % base;
      DivMod(n, base);
      var prefix := Symbols(q, alphabet);
      assert Symbols(n, alphabet) == prefix + [alphabet[r]];
      DecodeSymbols(q, alphabet);
      DecodeSnoc(prefix, alphabet[r], alphabet);
      IndexOfDistinct(r, alphabet);
    }
  }

  /** Appending a symbol shifts the decoded value by one place. */
  lemma DecodeSnoc(prefix: string, c: char, alphabet: string)
    ensures Decode(prefix + [c], alphabet) == Decode(prefix, alphabet) * |alphabet| + IndexOf(c, alphabet)
  {
    assert (prefix + [c])[..|prefix|] == prefix;
  }

  /** In an alphabet without repeats, the symbol at `i` is found at `i`. */
  lemma IndexOfDistinct(i: nat, alphabet: string)
    requires i < |alphabet| && Distinct(alphabet)
    ensures IndexOf(alphabet[i], alphabet) == i
  {
  }

  /** Decoding undoes the positional encoding. */
  lemma DecodeEncode(num: nat, alphabet: string)
    requires |alphabet| >= 2 && Distinct(alphabet)
    ensures Decode(Encode(num, alphabet), alphabet) == num
  {
    if num == 0 {
      var code := Encode(num, alphabet);
      assert code[..0] == [];
      assert IndexOf(alphabet[0], alphabet) == 0;
    } else {
      DecodeSymbols(num, alphabet);
    }
  }

  /** Distinct numbers get distinct codes under the positional encoding. */
  lemma EncodeInjective(m: nat, n: nat, alphabet: string)
    requires |alphabet| >= 2 && Distinct(alphabet)
    requires m != n
    ensures Encode(m, alphabet) != Encode(n, alphabet)
  {
    DecodeEncode(m, alphabet);
    DecodeEncode(n, alphabet);
  }

  /**
   * The code has the fewest symbols that can hold `num`:
   * `base^(len-1) <= num < base^len` for positive `num`.
   */
  lemma EncodeLength(num: nat, alphabet: string)
    requires |alphabet| >= 2
    ensures num < Pow(|alphabet|, |Encode(num, alphabet)|)
    ensures num > 0 ==> Pow(|alphabet|, |Encode(num, alphabet)| - 1) <= num
    ensures num == 0 ==> |Encode(num, alphabet)| == 1
  {
    assert Pow(|alphabet|, 1) == |alphabet|;
    if num > 0 {
      SymbolsLength(num, alphabet);
    }
  }

  lemma {:induction false} SymbolsLength(n: nat, alphabet: string)
    requires |alphabet| >= 2 && n > 0
    ensures |Symbols(n, alphabet)| >= 1
    ensures Pow(|alphabet|, |Symbols(n, alphabet)| - 1) <= n < Pow(|alphabet|, |Symbols(n, alphabet)|)
    decreases n
  {
    var base := |alphabet|;
    var q, r := n / base, n % base;
    DivMod(n, base);
    var prefix := Symbols(q, alphabet);
    assert Symbols(n, alphabet) == prefix + [alphabet[r]];
    if q == 0 {
      assert prefix == [];
      assert Pow(base, 1) == base;
    } else {
      SymbolsLength(q, alphabet);
      LengthStep(n, base, q, r, |prefix|);
    }
  }

  /** One digit more multiplies both bounds by the base. */
  lemma LengthStep(num: nat, base: nat, q: nat, r: nat, k: nat)
    requires base >= 2 && k >= 1 && r < base && num == q * base + r
    requires Pow(base, k - 1) <= q < Pow(base, k)
    ensures Pow(base, k) <= num < Pow(base, k + 1)
  {
    assert Pow(base, k + 1) == Pow(base, k) * base;
    assert Pow(base, k) == Pow(base, k - 1) * base;
    MulMonotone(q + 1, Pow(base, k), base);
    MulMonotone(Pow(base, k - 1), q, base);
  }

  /** A positive number's code never starts with the zero symbol. */
  lemma {:induction false} EncodeNoLeadingZero(num: nat, alphabet: string)
    requires |alphabet| >= 2 && Distinct(alphabet)
    requires num > 0
    ensures Encode(num, alphabet)[0] != alphabet[0]
    decreases num
  {
    var base := |alphabet|;
    var q, r := num / base, num % base;
    DivMod(num, base);
    SymbolsFacts(q, alphabet);
    if q == 0 {
      ModUnique(num, base, 0, num);
      assert Symbols(num, alphabet) == Symbols(0, alphabet) + [alphabet[num]];
    } else {
      EncodeNoLeadingZero(q, alphabet);
      assert Symbols(num, alphabet)[0] == Symbols(q, alphabet)[0];
    }
  }

  /** The base-62 alphabet has 62 symbols, none repeated. */
  lemma Base62AlphabetIsDistinct()
    ensures |BASE62_ALPHABET| == 62
    ensures Distinct(BASE62_ALPHABET)
  {
    Base62Ranks();
  }

  lemma Base62Ranks()
    ensures forall i :: 0 <= i < |BASE62_ALPHABET| ==> Rank(BASE62_ALPHABET[i]) == i
  {
    assert forall i :: 0 <= i < |DIGITS| ==> Rank(DIGITS[i]) == i;
    assert forall i :: 0 <= i < |LOWER_CASE| ==> Rank(LOWER_CASE[i]) == i + 10;
    assert forall i :: 0 <= i < |UPPER_CASE| ==> Rank(UPPER_CASE[i]) == i + 36;
  }

  /** The position of a symbol in the base-62 alphabet, computed from its character range. */
  function Rank(c: char): int
  {
    if '0' <= c <= '9' then c as int - '0' as int
    else if 'a' <= c <= 'z' then c as int - 'a' as int + 10
    else if 'A' <= c <= 'Z' then c as int - 'A' as int + 36
    else -1
  }

  /** Multi-digit examples: 62 is "10", 62*62-1 is "ZZ", 62*62 takes three symbols. */
  lemma EncodeExamples()
    ensures Encode(0, BASE62_ALPHABET) == "0"
    ensures Encode(62, BASE62_ALPHABET) == "10"
    ensures Encode(62 * 62 - 1, BASE62_ALPHABET) == "ZZ"
    ensures Encode(62 * 62, BASE62_ALPHABET) == "100"
  {
    var a := BASE62_ALPHABET;
    assert |a| == 62 && a[0] == '0' && a[1] == '1' && a[61] == 'Z';
    assert Symbols(1, a) == [a[1]];
    assert Symbols(61, a) == [a[61]];
    assert Symbols(62, a) == Symbols(1, a) + [a[0]];
    assert Symbols(62 * 62 - 1, a) == Symbols(61, a) + [a[61]];
    assert Symbols(62 * 62, a) == Symbols(62, a) + [a[0]];
  }

  /** Moving the last pending symbol to the front of the reversed collected ones. */
  lemma MoveDigit(pending: seq<char>, rest: seq<char>, c: char, arr: seq<char>)
    requires pending == rest + [c]
    ensures pending + Reversed(arr) == rest + Reversed(arr + [c])
  {
    ReversedSnoc(arr, c);
    assert (rest + [c]) + Reversed(arr) == rest + ([c] + Reversed(arr));
  }

  /**
   * The corrected loop: every remainder is collected before the loop
   * ends, and the symbols are reversed once, after it.
   */
  method BaseEncodePositional(num: nat, alphabet: string := BASE62_ALPHABET) returns (code: string)
    requires |alphabet| >= 2
    ensures code == Encode(num, alphabet)
  {
    if num == 0 {
      return [alphabet[0]];
    }
    var arr: seq<char> := [];
    var base := |alphabet|;
    var n: nat := num;
    while n > 0
      invariant Symbols(n, alphabet) + Reversed(arr) == Symbols(num, alphabet)
      decreases n
    {
      var rem := n % base;
      DivMod(n, base);
      MoveDigit(Symbols(n, alphabet), Symbols(n / base, alphabet), alphabet[rem], arr);
      arr := arr + [alphabet[rem]];
      n := n / base;
    }
    assert Symbols(n, alphabet) + Reversed(arr) == Reversed(arr);
    arr := Reversed(arr);
    code := arr;
  }
}
