/** Option and Result, used for nullable values and for calls that throw. */
module Results {
  datatype Option<+T> = None | Some(value: T)

  datatype Result<+T, +E> = Ok(value: T) | Err(error: E)
}

/**
 * The few pieces of the Kotlin standard library that the provider's string
 * handling relies on: `split` on a one-character delimiter, `String.toInt`,
 * `Int.toString`, and the `replace("?", "%s").format(...)` idiom used to
 * fill placeholders.
 */
module KotlinText {
  import opened Results

  /** Number of occurrences of `c` in `s`. */
  function Count(s: string, c: char): (n: nat)
    ensures n == 0 <==> c !in s
    ensures n <= |s|
  {
    if |s| == 0 then 0
    else (if s[0] == c then 1 else 0) + Count(s[1..], c)
  }

  /**
   * `s.split(d)`: the pieces between occurrences of `d`, empty pieces
   * included (Kotlin, unlike Java, keeps trailing empty pieces).
   */
  function Split(s: string, d: char): (r: seq<string>)
    ensures |r| == Count(s, d) + 1
    ensures forall i :: 0 <= i < |r| ==> d !in r[i]
  {
    if |s| == 0 then [""]
    else
      var rest := Split(s[1..], d);
      if s[0] == d then [""] + rest
      else [[s[0]] + rest[0]] + rest[1..]
  }

  /** `pieces.joinToString(d)`: the inverse of `Split`. */
  function Join(pieces: seq<string>, d: char): string
    requires |pieces| >= 1
  {
    if |pieces| == 1 then pieces[0]
    else pieces[0] + [d] + Join(pieces[1..], d)
  }

  /** Prepending a character to the first piece prepends it to the joined text. */
  lemma {:induction false} JoinPrependFirst(c: char, pieces: seq<string>, d: char)
    requires |pieces| >= 1
    ensures Join([[c] + pieces[0]] + pieces[1..], d) == [c] + Join(pieces, d)
  {
    var ps := [[c] + pieces[0]] + pieces[1..];
    if |pieces| > 1 {
      assert ps[1..] == pieces[1..];
    }
  }

  /** Joining the pieces of a split gives back the text. */
  lemma {:induction false} JoinSplit(s: string, d: char)
    ensures Join(Split(s, d), d) == s
  {
    if |s| > 0 {
      JoinSplit(s[1..], d);
      var rest := Split(s[1..], d);
      if s[0] == d {
        assert ([""] + rest)[1..] == rest;
      } else {
        JoinPrependFirst(s[0], rest, d);
      }
      assert s == [s[0]] + s[1..];
    }
  }

  /** One step of `Split`, for a text given as its first character and the rest. */
  lemma SplitCons(c: char, s: string, d: char)
    ensures Split([c] + s, d) ==
      if c == d then [""] + Split(s, d) else [[c] + Split(s, d)[0]] + Split(s, d)[1..]
  {
    assert ([c] + s)[0] == c && ([c] + s)[1..] == s;
  }

  /** Text without the delimiter is a single piece. */
  lemma {:induction false} SplitWithout(w: string, d: char)
    requires d !in w
    ensures Split(w, d) == [w]
  {
    if |w| > 0 {
      assert d !in w[1..];
      SplitWithout(w[1..], d);
      assert w == [w[0]] + w[1..];
    }
  }

  /** A delimiter-free prefix followed by the delimiter becomes the first piece. */
  lemma {:induction false} SplitAfter(w: string, t: string, d: char)
    requires d !in w
    ensures Split(w + [d] + t, d) == [w] + Split(t, d)
  {
    if |w| == 0 {
      assert w + [d] + t == [d] + t;
      SplitCons(d, t, d);
    } else {
      var w' := w[1..];
      assert w + [d] + t == [w[0]] + (w' + [d] + t);
      assert d !in w';
      SplitAfter(w', t, d);
      SplitCons(w[0], w' + [d] + t, d);
      var rest := Split(w' + [d] + t, d);
      assert rest[0] == w' && rest[1..] == Split(t, d);
      assert [w[0]] + w' == w;
    }
  }

  /** Splitting joined delimiter-free pieces gives back the pieces. */
  lemma {:induction false} SplitJoin(pieces: seq<string>, d: char)
    requires |pieces| >= 1
    requires forall i :: 0 <= i < |pieces| ==> d !in pieces[i]
    ensures Split(Join(pieces, d), d) == pieces
  {
    if |pieces| == 1 {
      SplitWithout(pieces[0], d);
    } else {
      SplitJoin(pieces[1..], d);
      SplitAfter(pieces[0], Join(pieces[1..], d), d);
      assert [pieces[0]] + pieces[1..] == pieces;
    }
  }

  /** Joining pieces with a final separator before the last piece. */
  lemma {:induction false} JoinLast(pieces: seq<string>, d: char)
    requires |pieces| >= 2
    ensures Join(pieces, d) == Join(pieces[..|pieces| - 1], d) + [d] + pieces[|pieces| - 1]
  {
    if |pieces| > 2 {
      JoinLast(pieces[1..], d);
      assert pieces[1..][..|pieces| - 2] == pieces[..|pieces| - 1][1..];
    }
  }

  predicate IsDigit(c: char) {
    '0' <= c <= '9'
  }

  predicate AllDigits(s: string) {
    forall i :: 0 <= i < |s| ==> IsDigit(s[i])
  }

  /** The value of a string of decimal digits. */
  function DigitsValue(s: string): nat
    requires AllDigits(s)
  {
    if |s| == 0 then 0
    else DigitsValue(s[..|s| - 1]) * 10 + (s[|s| - 1] as int - '0' as int)
  }

  /** Bounds of Kotlin's 32-bit `Int`. */
  const INT_MIN: int := -0x8000_0000
  const INT_MAX: int := 0x7fff_ffff

  /**
   * `s.toInt()`: an optional `-` or `+` sign followed by at least one
   * decimal digit, in 32-bit range; `None` stands for the
   * `NumberFormatException` it throws otherwise.
   */
  function ToInt(s: string): (r: Option<int>)
    ensures r.Some? ==> INT_MIN <= r.value <= INT_MAX
    ensures r.Some? ==> |s| >= 1 && (IsDigit(s[0]) || s[0] == '-' || s[0] == '+')
    // unsigned text: all digits, and then its value
    ensures r.Some? && IsDigit(s[0]) ==> AllDigits(s) && r.value == DigitsValue(s)
    ensures |s| >= 1 && AllDigits(s) && DigitsValue(s) <= INT_MAX ==> r == Some(DigitsValue(s))
    // signed text: at least one digit after the sign, negated for `-`
    ensures r.Some? && s[0] == '-' ==> |s| >= 2 && AllDigits(s[1..]) && r.value == -(DigitsValue(s[1..]) as int)
    ensures r.Some? && s[0] == '+' ==> |s| >= 2 && AllDigits(s[1..]) && r.value == DigitsValue(s[1..])
    ensures |s| >= 2 && s[0] == '-' && AllDigits(s[1..]) && DigitsValue(s[1..]) <= -INT_MIN ==>
      r == Some(-(DigitsValue(s[1..]) as int))
    ensures |s| >= 2 && s[0] == '+' && AllDigits(s[1..]) && DigitsValue(s[1..]) <= INT_MAX ==>
      r == Some(DigitsValue(s[1..]))
  {
    if |s| == 0 then None
    else
      var signed := s[0] == '-' || s[0] == '+';
      var digits := if signed then s[1..] else s;
      if |digits| == 0 || !AllDigits(digits) then None
      else
        var v: int := if s[0] == '-' then -(DigitsValue(digits) as int) else DigitsValue(digits);
        if INT_MIN <= v <= INT_MAX then Some(v) else None
  }

  function DigitChar(d: nat): (c: char)
    requires d < 10
    ensures IsDigit(c) && c as int - '0' as int == d
  {
    (d + '0' as int) as char
  }

  /** The decimal text of a natural number, without leading zeros. */
  function NatToString(n: nat): (r: string)
    ensures |r| >= 1 && AllDigits(r) && DigitsValue(r) == n
    ensures r[0] == '0' ==> n == 0
  {
    if n < 10 then [DigitChar(n)]
    else
      var prefix := NatToString(n / 10);
      var r := prefix + [DigitChar(n % 10)];
      assert r[..|r| - 1] == prefix;
      r
  }

  /** `n.toString()` for an integer. */
  function IntToString(n: int): (r: string)
    ensures |r| >= 1 && (r[0] == '-' <==> n < 0)
  {
    if n < 0 then "-" + NatToString(-n) else NatToString(n)
  }

  /** `toInt` reads back what `toString` writes, for every 32-bit value. */
  lemma ToIntOfIntToString(n: int)
    requires INT_MIN <= n <= INT_MAX
    ensures ToInt(IntToString(n)) == Some(n)
  {
    if n < 0 {
      var s := IntToString(n);
      assert s[1..] == NatToString(-n);
    }
  }

  /**
   * `s.replace("?", "%s").format(*args)` for a text without `%`: each `?`,
   * left to right, becomes the next argument and extra arguments are
   * ignored; `None` stands for the `MissingFormatArgumentException` thrown
   * when there are more placeholders than arguments.
   */
  function Substitute(s: string, args: seq<string>): (r: Option<string>)
    requires '%' !in s
    ensures r.Some? <==> Count(s, '?') <= |args|
    ensures '?' !in s ==> r == Some(s)
  {
    if |s| == 0 then Some("")
    else
      assert '%' !in s[1..];
      if s[0] == '?' then
        if |args| == 0 then None
        else
          match Substitute(s[1..], args[1..])
          case None => None
          case Some(t) => Some(args[0] + t)
      else
        match Substitute(s[1..], args)
        case None => None
        case Some(t) =>
          assert s == [s[0]] + s[1..];
          Some([s[0]] + t)
  }

  /** pieces[0] + args[0] + pieces[1] + args[1] + ... + pieces[n]. */
  function Interleave(pieces: seq<string>, args: seq<string>): string
    requires |pieces| >= 1 && |args| >= |pieces| - 1
  {
    if |pieces| == 1 then pieces[0]
    else pieces[0] + args[0] + Interleave(pieces[1..], args[1..])
  }

  lemma {:induction false} InterleavePrependFirst(c: char, pieces: seq<string>, args: seq<string>)
    requires |pieces| >= 1 && |args| >= |pieces| - 1
    ensures Interleave([[c] + pieces[0]] + pieces[1..], args) == [c] + Interleave(pieces, args)
  {
    var ps := [[c] + pieces[0]] + pieces[1..];
    if |pieces| > 1 {
      assert ps[1..] == pieces[1..];
    }
  }

  /**
   * The substituted text is the text between the placeholders interleaved
   * with the arguments, in order.
   */
  lemma {:induction false} SubstituteInterleaves(s: string, args: seq<string>)
    requires '%' !in s
    requires Count(s, '?') <= |args|
    ensures Substitute(s, args) == Some(Interleave(Split(s, '?'), args))
  {
    if |s| > 0 {
      var tail := s[1..];
      assert s == [s[0]] + tail;
      assert '%' !in tail;
      if s[0] == '?' {
        SubstituteInterleaves(tail, args[1..]);
        PlaceholderStep(tail, args);
      } else {
        SubstituteInterleaves(tail, args);
        LiteralStep(s[0], tail, args);
      }
    }
  }

  /** The inductive step of `SubstituteInterleaves` for a leading placeholder. */
  lemma PlaceholderStep(tail: string, args: seq<string>)
    requires '%' !in tail && |args| >= 1 && Count(tail, '?') <= |args| - 1
    requires Substitute(tail, args[1..]) == Some(Interleave(Split(tail, '?'), args[1..]))
    ensures Substitute(['?'] + tail, args) == Some(Interleave(Split(['?'] + tail, '?'), args))
  {
    var s := ['?'] + tail;
    assert s[0] == '?' && s[1..] == tail;
    var t := Interleave(Split(tail, '?'), args[1..]);
    assert Substitute(s, args) == Some(args[0] + t);
    var ps := [""] + Split(tail, '?');
    assert Split(s, '?') == ps;
    assert ps[1..] == Split(tail, '?');
    assert Interleave(ps, args) == ps[0] + args[0] + t;
    assert ps[0] + args[0] == args[0];
  }

  /** The inductive step of `SubstituteInterleaves` for a leading character that is not a placeholder. */
  lemma LiteralStep(c: char, tail: string, args: seq<string>)
    requires c != '?' && c != '%' && '%' !in tail && Count(tail, '?') <= |args|
    requires Substitute(tail, args) == Some(Interleave(Split(tail, '?'), args))
    ensures Substitute([c] + tail, args) == Some(Interleave(Split([c] + tail, '?'), args))
  {
    var s := [c] + tail;
    assert s[0] == c && s[1..] == tail;
    var rest := Split(tail, '?');
    assert Split(s, '?') == [[c] + rest[0]] + rest[1..];
    InterleavePrependFirst(c, rest, args);
  }

  /**
   * `pairs.associate { it }`: a map from the pairs, in order, so that a
   * later pair overwrites an earlier one with the same key.
   */
  function Associate<K(==), V>(pairs: seq<(K, V)>): (r: map<K, V>)
    ensures forall i :: 0 <= i < |pairs| ==> pairs[i].0 in r
    ensures |pairs| > 0 ==> r[pairs[|pairs| - 1].0] == pairs[|pairs| - 1].1
  {
    if |pairs| == 0 then map[]
    else
      var last := pairs[|pairs| - 1];
      Associate(pairs[..|pairs| - 1])[last.0 := last.1]
  }

  /** Some pair has key `k`. */
  predicate KeyOccurs<K(==), V>(pairs: seq<(K, V)>, k: K) {
    exists i :: 0 <= i < |pairs| && pairs[i].0 == k
  }

  /** Pair `j` is the last pair with key `k`. */
  predicate LastOccurrence<K(==), V>(pairs: seq<(K, V)>, k: K, j: int) {
    0 <= j < |pairs| && pairs[j].0 == k && forall i :: j < i < |pairs| ==> pairs[i].0 != k
  }

  /** A key is in the map iff some pair has it, and then it maps to the value of the last such pair. */
  lemma {:induction false} AssociateLookup<K, V>(pairs: seq<(K, V)>, k: K)
    ensures k in Associate(pairs) <==> KeyOccurs(pairs, k)
    ensures k in Associate(pairs) ==>
      exists j :: LastOccurrence(pairs, k, j) && Associate(pairs)[k] == pairs[j].1
  {
    if |pairs| > 0 {
      var n := |pairs| - 1;
      var prefix := pairs[..n];
      if pairs[n].0 == k {
        assert LastOccurrence(pairs, k, n);
      } else {
        AssociateLookup(prefix, k);
        assert KeyOccurs(pairs, k) ==> KeyOccurs(prefix, k) by {
          if KeyOccurs(pairs, k) {
            var i :| 0 <= i < |pairs| && pairs[i].0 == k;
            assert prefix[i] == pairs[i];
          }
        }
        assert KeyOccurs(prefix, k) ==> KeyOccurs(pairs, k) by {
          if KeyOccurs(prefix, k) {
            var i :| 0 <= i < |prefix| && prefix[i].0 == k;
            assert prefix[i] == pairs[i];
          }
        }
        if k in Associate(prefix) {
          var j :| LastOccurrence(prefix, k, j) && Associate(prefix)[k] == prefix[j].1;
          assert prefix[j] == pairs[j];
          forall i | j < i < |pairs| ensures pairs[i].0 != k {
            if i < n { assert prefix[i] == pairs[i]; }
          }
          assert LastOccurrence(pairs, k, j);
        }
      }
    }
  }
}
