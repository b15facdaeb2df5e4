/** The string operations the scanner relies on, written the way Python defines them:
    `sub in s`, `s.split(sep)`, `sep.join(parts)`, `str(n)` and `int(s)` for integers. */
module Text {
  import opened Wrappers

  /** `sub` occurs in `s` starting at index `i`. */
  predicate OccursAt(s: string, sub: string, i: int)
  {
    0 <= i && i + |sub| <= |s| && s[i..i + |sub|] == sub
  }

  /** Python's `sub in s`. */
  predicate Contains(s: string, sub: string)
  {
    exists i | 0 <= i <= |s| - |sub| :: OccursAt(s, sub, i)
  }

  /** Python's `sep.join(parts)` for a one-character separator. */
  function Join(parts: seq<string>, sep: char): string
    requires |parts| >= 1
  {
    if |parts| == 1 then parts[0] else parts[0] + [sep] + Join(parts[1..], sep)
  }

  /** Python's `s.split(sep)` for a one-character separator: the pieces between
      separators, empty pieces included, and never an empty list. */
  function Split(s: string, sep: char): (parts: seq<string>)
    ensures |parts| >= 1
    ensures forall i :: 0 <= i < |parts| ==> sep !in parts[i]
    decreases |s|
  {
    if |s| == 0 then [""]
    else
      var rest := Split(s[1..], sep);
      if s[0] == sep then [""] + rest
      else [[s[0]] + rest[0]] + rest[1..]
  }

  /** One unfolding of `Split` on a non-empty string, stated over its head and tail. */
  lemma SplitCons(c: char, t: string, sep: char)
    ensures c == sep ==> Split([c] + t, sep) == [""] + Split(t, sep)
    ensures c != sep ==> Split([c] + t, sep) == [[c] + Split(t, sep)[0]] + Split(t, sep)[1..]
  {
    assert ([c] + t)[0] == c;
    assert ([c] + t)[1..] == t;
  }

  /** `sep.join(s.split(sep)) == s`: splitting loses nothing. */
  lemma {:induction false} JoinSplit(s: string, sep: char)
    ensures Join(Split(s, sep), sep) == s
    decreases |s|
  {
    if |s| > 0 {
      var c, t := s[0], s[1..];
      JoinSplit(t, sep);
      assert s == [c] + t;
      SplitCons(c, t, sep);
      var rest := Split(t, sep);
      if c == sep {
        assert ([""] + rest)[1..] == rest;
      } else if |rest| == 1 {
        assert Join(rest, sep) == rest[0];
      } else {
        var parts := [[c] + rest[0]] + rest[1..];
        assert parts[1..] == rest[1..];
        assert Join(rest, sep) == rest[0] + [sep] + Join(rest[1..], sep);
      }
    }
  }

  /** The last piece of a split, Python's `s.split(sep)[-1]`. */
  function LastPiece(s: string, sep: char): (piece: string)
    ensures sep !in piece
  {
    var parts := Split(s, sep);
    parts[|parts| - 1]
  }

  /** The last piece is the text after the last separator: a suffix of `s` that is
      either all of `s` (no separator at all) or preceded by a separator. */
  lemma LastPieceIsSuffix(s: string, sep: char)
    ensures |LastPiece(s, sep)| <= |s|
    ensures s[|s| - |LastPiece(s, sep)|..] == LastPiece(s, sep)
    ensures |LastPiece(s, sep)| < |s| ==> s[|s| - |LastPiece(s, sep)| - 1] == sep
  {
    var parts := Split(s, sep);
    SplitLastIsSuffix(s, sep, parts[|parts| - 1]);
  }

  /** The same, stated over the split itself, for the induction. */
  lemma {:induction false} SplitLastIsSuffix(s: string, sep: char, last: string)
    requires last == Split(s, sep)[|Split(s, sep)| - 1]
    ensures |last| <= |s| && s[|s| - |last|..] == last
    ensures |last| < |s| ==> s[|s| - |last| - 1] == sep
    ensures |Split(s, sep)| == 1 ==> last == s
    ensures |Split(s, sep)| > 1 ==> |last| < |s|
    decreases |s|
  {
    if |s| > 0 {
      var t := s[1..];
      var rest := Split(t, sep);
      var lastRest := rest[|rest| - 1];
      SplitLastIsSuffix(t, sep, lastRest);
      var parts := Split(s, sep);
      if s[0] == sep {
        assert parts == [""] + rest;
        SuffixOfTail(s, sep, lastRest);
      } else if |rest| == 1 {
        assert parts == [[s[0]] + rest[0]];
        assert s == [s[0]] + t;
      } else {
        assert parts == [[s[0]] + rest[0]] + rest[1..];
        SuffixOfTail(s, sep, lastRest);
      }
    }
  }

  /** A separator-led suffix of the tail of `s` is one of `s`; when it is all of the
      tail, the separator before it is the head of `s`. */
  lemma SuffixOfTail(s: string, sep: char, piece: string)
    requires |s| > 0 && |piece| <= |s| - 1 && s[1..][|s| - 1 - |piece|..] == piece
    requires |piece| < |s| - 1 ==> s[1..][|s| - 1 - |piece| - 1] == sep
    requires |piece| == |s| - 1 ==> s[0] == sep
    ensures |piece| <= |s| && s[|s| - |piece|..] == piece
    ensures |piece| < |s| ==> s[|s| - |piece| - 1] == sep
  {
    assert s[1..][|s| - 1 - |piece|..] == s[|s| - |piece|..];
  }

  lemma {:induction false} SplitWithoutSeparator(s: string, sep: char)
    requires sep !in s
    ensures Split(s, sep) == [s]
    decreases |s|
  {
    if |s| > 0 {
      SplitWithoutSeparator(s[1..], sep);
      assert s == [s[0]] + s[1..];
    }
  }

  /** Gluing a character onto the first piece commutes with appending more pieces. */
  lemma ConsFirstPiece(c: char, front: seq<string>, back: seq<string>)
    requires |front| >= 1
    ensures [[c] + (front + back)[0]] + (front + back)[1..] == ([[c] + front[0]] + front[1..]) + back
  {
    assert (front + back)[0] == front[0];
    assert (front + back)[1..] == front[1..] + back;
  }

  /** Splitting at a separator splits the two sides independently. */
  lemma {:induction false} SplitConcat(a: string, b: string, sep: char)
    ensures Split(a + [sep] + b, sep) == Split(a, sep) + Split(b, sep)
    decreases |a|
  {
    if |a| == 0 {
      assert a + [sep] + b == [sep] + b;
      SplitCons(sep, b, sep);
    } else {
      var a' := a[1..];
      assert a == [a[0]] + a';
      assert a + [sep] + b == [a[0]] + (a' + [sep] + b);
      SplitConcat(a', b, sep);
      SplitCons(a[0], a' + [sep] + b, sep);
      SplitCons(a[0], a', sep);
      if a[0] != sep {
        ConsFirstPiece(a[0], Split(a', sep), Split(b, sep));
      }
    }
  }

  /** `sep.join(parts).split(sep) == parts` when no part holds the separator. */
  lemma {:induction false} SplitJoin(parts: seq<string>, sep: char)
    requires |parts| >= 1
    requires forall i :: 0 <= i < |parts| ==> sep !in parts[i]
    ensures Split(Join(parts, sep), sep) == parts
    decreases |parts|
  {
    SplitWithoutSeparator(parts[0], sep);
    if |parts| > 1 {
      SplitJoin(parts[1..], sep);
      SplitConcat(parts[0], Join(parts[1..], sep), sep);
      assert parts == [parts[0]] + parts[1..];
    }
  }

  /** The last piece of a joined list is its last part, whatever the other parts hold. */
  lemma {:induction false} LastPieceOfJoin(parts: seq<string>, sep: char)
    requires |parts| >= 1
    requires sep !in parts[|parts| - 1]
    ensures LastPiece(Join(parts, sep), sep) == parts[|parts| - 1]
    decreases |parts|
  {
    if |parts| == 1 {
      SplitWithoutSeparator(parts[0], sep);
    } else {
      LastPieceOfJoin(parts[1..], sep);
      SplitConcat(parts[0], Join(parts[1..], sep), sep);
    }
  }

  /** The first `k` pieces of a joined list are its first `k` parts when those hold no separator. */
  lemma {:induction false} LeadingPiecesOfJoin(parts: seq<string>, sep: char, k: nat)
    requires k < |parts|
    requires forall i :: 0 <= i < k ==> sep !in parts[i]
    ensures |Split(Join(parts, sep), sep)| > k
    ensures Split(Join(parts, sep), sep)[..k] == parts[..k]
    decreases k
  {
    if k > 0 {
      SplitWithoutSeparator(parts[0], sep);
      LeadingPiecesOfJoin(parts[1..], sep, k - 1);
      SplitConcat(parts[0], Join(parts[1..], sep), sep);
      var tail := Split(Join(parts[1..], sep), sep);
      assert Split(Join(parts, sep), sep) == [parts[0]] + tail;
      assert ([parts[0]] + tail)[..k] == [parts[0]] + tail[..k - 1];
      assert parts[..k] == [parts[0]] + parts[1..][..k - 1];
    }
  }

  predicate IsDigit(c: char)
  {
    '0' <= c <= '9'
  }

  predicate AllDigits(s: string)
  {
    forall i :: 0 <= i < |s| ==> IsDigit(s[i])
  }

  function DigitChar(d: int): (c: char)
    requires 0 <= d < 10
    ensures IsDigit(c) && c as int - '0' as int == d
  {
    ('0' as int + d) as char
  }

  /** The decimal value of a string of digits, read left to right. */
  function DigitsValue(s: string): nat
    requires AllDigits(s)
  {
    if |s| == 0 then 0
    else 10 * DigitsValue(s[..|s| - 1]) + (s[|s| - 1] as int - '0' as int)
  }

  /** Python's `str(n)` for `n >= 0`: decimal digits without leading zeros. */
  function ShowNat(n: nat): (s: string)
    ensures |s| >= 1 && AllDigits(s)
  {
    if n < 10 then [DigitChar(n)] else ShowNat(n / 10) + [DigitChar(n % 10)]
  }

  /** Python's `str(n)` for any integer: a minus sign before the digits of `-n` when `n < 0`. */
  function ShowInt(n: int): (s: string)
    ensures forall i :: 0 <= i < |s| ==> s[i] == '-' || IsDigit(s[i])
  {
    if n < 0 then "-" + ShowNat(-n) else ShowNat(n)
  }

  /** Python's `int(s)` on a string, for the strings this model reads: an optional
      sign followed by at least one ASCII decimal digit. Every other string is `None`
      here, which stands for the `ValueError` Python raises on most of them (see
      `IntLiteral` for the accepted shape). Python also accepts surrounding
      whitespace, `_` separators and non-ASCII digits, and CPython rejects literals
      over its 4300-digit limit; neither is modelled. */
  function ParseInt(s: string): Option<int>
  {
    if |s| >= 2 && (s[0] == '-' || s[0] == '+') && AllDigits(s[1..]) then
      var magnitude: int := DigitsValue(s[1..]);
      Some(if s[0] == '-' then -magnitude else magnitude)
    else if |s| >= 1 && AllDigits(s) then
      Some(DigitsValue(s))
    else
      None
  }

  /** An integer literal, read character by character: a digit or a sign first, at
      least one character after a sign, and only digits after the first character. */
  predicate IntLiteral(s: string)
  {
    && |s| >= 1
    && (IsDigit(s[0]) || (|s| >= 2 && (s[0] == '-' || s[0] == '+')))
    && forall i :: 1 <= i < |s| ==> IsDigit(s[i])
  }

  /** `int(s)` accepts exactly the integer literals, and a negative value only after a
      minus sign. */
  lemma ParsedShape(s: string)
    ensures ParseInt(s).Some? <==> IntLiteral(s)
    ensures ParseInt(s).Some? && ParseInt(s).value < 0 ==> s[0] == '-'
  {
    if |s| >= 1 {
      assert forall i :: 1 <= i < |s| ==> s[i] == s[1..][i - 1];
      if IntLiteral(s) && !IsDigit(s[0]) {
        assert AllDigits(s[1..]);
      }
    }
  }

  lemma {:induction false} DigitsValueOfShowNat(n: nat)
    ensures DigitsValue(ShowNat(n)) == n
  {
    if n >= 10 {
      DigitsValueOfShowNat(n / 10);
      var s := ShowNat(n);
      assert s[..|s| - 1] == ShowNat(n / 10);
    }
  }

  /** `int(str(n)) == n` for every integer. */
  lemma ParseShowInt(n: int)
    ensures ParseInt(ShowInt(n)) == Some(n)
  {
    if n < 0 {
      var digits := ShowNat(-n);
      DigitsValueOfShowNat(-n);
      var s := "-" + digits;
      assert s == ShowInt(n);
      assert s[0] == '-' && s[1..] == digits;
      assert |s| >= 2 && AllDigits(s[1..]);
    } else {
      var digits := ShowNat(n);
      DigitsValueOfShowNat(n);
      assert digits == ShowInt(n);
      assert !(digits[0] == '-' || digits[0] == '+') by {
        assert IsDigit(digits[0]);
      }
    }
  }
}
