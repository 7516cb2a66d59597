/**
 * The library functions on text that the server relies on: splitting at a separator as strtok_r does,
 * printing integers, and reading them as strtoll does.
 */
module Text {
  import opened Sequences

  /** The size of the server's text buffers. */
  const MAX_STRING := 4096

  function LowerChar(c: char): char {
    if 'A' <= c <= 'Z' then (c as int + 32) as char else c
  }

  function Lower(s: string): string {
    seq(|s|, i requires 0 <= i < |s| => LowerChar(s[i]))
  }

  // ----- splitting

  predicate Contains(s: string, c: char) {
    c in s
  }

  /** The non-empty pieces of a text between separators, when `piece` has been read already. */
  function TokensFrom(piece: string, s: string, sep: char): seq<string>
    decreases |s|
  {
    if s == "" then (if piece == "" then [] else [piece])
    else if s[0] != sep then TokensFrom(piece + [s[0]], s[1..], sep)
    else (if piece == "" then [] else [piece]) + TokensFrom("", s[1..], sep)
  }

  function Tokens(s: string, sep: char): seq<string> {
    TokensFrom("", s, sep)
  }

  /** A text without separators is one piece, if it is not empty. */
  lemma {:induction false} OneToken(piece: string, s: string, sep: char)
    requires !Contains(s, sep)
    ensures TokensFrom(piece, s, sep) == if piece + s == "" then [] else [piece + s]
    decreases |s|
  {
    if s != "" {
      OneToken(piece + [s[0]], s[1..], sep);
      assert piece + [s[0]] + s[1..] == piece + s;
    } else {
      assert piece + s == piece;
    }
  }

  /** A separator splits the pieces of a text. */
  lemma {:induction false} SplitTokens(piece: string, s: string, t: string, sep: char)
    ensures TokensFrom(piece, s + [sep] + t, sep) == TokensFrom(piece, s, sep) + TokensFrom("", t, sep)
    decreases |s|
  {
    var all := s + [sep] + t;
    if s == "" {
      assert all[1..] == t;
    } else {
      assert all[1..] == s[1..] + [sep] + t;
      if s[0] != sep {
        SplitTokens(piece + [s[0]], s[1..], t, sep);
      } else {
        SplitTokens("", s[1..], t, sep);
      }
    }
  }

  /** The pieces are not empty and hold no separator. */
  lemma {:induction false} TokensClean(piece: string, s: string, sep: char)
    requires !Contains(piece, sep)
    ensures forall x :: x in TokensFrom(piece, s, sep) ==> x != "" && !Contains(x, sep)
    decreases |s|
  {
    if s != "" {
      if s[0] != sep {
        TokensClean(piece + [s[0]], s[1..], sep);
      } else {
        TokensClean("", s[1..], sep);
      }
    }
  }

  /** The length of some pieces written one after the other, each followed by a separator. */
  ghost function Spread(tokens: seq<string>): nat {
    if tokens == [] then 0 else |tokens[0]| + 1 + Spread(tokens[1..])
  }

  lemma {:induction false} SpreadSnoc(tokens: seq<string>, last: string)
    ensures Spread(tokens + [last]) == Spread(tokens) + |last| + 1
  {
    if tokens == [] {
      assert [last][1..] == [] && [] + [last] == [last];
    } else {
      SpreadSnoc(tokens[1..], last);
      assert (tokens + [last])[1..] == tokens[1..] + [last];
    }
  }

  /** The pieces, with one separator between any two, take no more room than the text. */
  lemma {:induction false} TokensFit(piece: string, s: string, sep: char)
    ensures Spread(TokensFrom(piece, s, sep)) <= |piece| + |s| + 1
    decreases |s|
  {
    if s != "" {
      if s[0] != sep {
        TokensFit(piece + [s[0]], s[1..], sep);
      } else {
        TokensFit("", s[1..], sep);
        var rest := TokensFrom("", s[1..], sep);
        assert ([piece] + rest)[1..] == rest && [] + rest == rest;
      }
    }
  }

  /** All pieces of a text between separators, the empty ones, too, when `piece` has been read already. */
  function PiecesFrom(piece: string, s: string, sep: char): (r: seq<string>)
    ensures r != []
    decreases |s|
  {
    if s == "" then [piece]
    else if s[0] != sep then PiecesFrom(piece + [s[0]], s[1..], sep)
    else [piece] + PiecesFrom("", s[1..], sep)
  }

  function Pieces(s: string, sep: char): (r: seq<string>)
    ensures r != []
  {
    PiecesFrom("", s, sep)
  }

  /** A text without separators is one piece. */
  lemma {:induction false} OnePiece(piece: string, s: string, sep: char)
    requires !Contains(s, sep)
    ensures PiecesFrom(piece, s, sep) == [piece + s]
    decreases |s|
  {
    if s != "" {
      OnePiece(piece + [s[0]], s[1..], sep);
      assert piece + [s[0]] + s[1..] == piece + s;
    } else {
      assert piece + s == piece;
    }
  }

  lemma {:induction false} SplitPieces(piece: string, s: string, t: string, sep: char)
    ensures PiecesFrom(piece, s + [sep] + t, sep) == PiecesFrom(piece, s, sep) + PiecesFrom("", t, sep)
    decreases |s|
  {
    var all := s + [sep] + t;
    if s == "" {
      assert all[1..] == t;
    } else {
      assert all[1..] == s[1..] + [sep] + t;
      if s[0] != sep {
        SplitPieces(piece + [s[0]], s[1..], t, sep);
      } else {
        SplitPieces("", s[1..], t, sep);
      }
    }
  }

  /** The pieces that are not empty. */
  function NonEmpty(pieces: seq<string>): seq<string> {
    if pieces == [] then []
    else if pieces[0] == "" then NonEmpty(pieces[1..])
    else [pieces[0]] + NonEmpty(pieces[1..])
  }

  /** Splitting as strtok_r does skips exactly the empty pieces. */
  lemma {:induction false} TokensAreNonEmpty(piece: string, s: string, sep: char)
    ensures TokensFrom(piece, s, sep) == NonEmpty(PiecesFrom(piece, s, sep))
    decreases |s|
  {
    if s == "" {
      assert [piece][1..] == [] && NonEmpty([]) == [];
    } else if s[0] != sep {
      TokensAreNonEmpty(piece + [s[0]], s[1..], sep);
    } else {
      TokensAreNonEmpty("", s[1..], sep);
      var rest := PiecesFrom("", s[1..], sep);
      assert ([piece] + rest)[1..] == rest;
    }
  }

  lemma {:induction false} NonEmptyCount(pieces: seq<string>)
    ensures |NonEmpty(pieces)| <= |pieces| && (|NonEmpty(pieces)| == |pieces| <==> "" !in pieces)
  {
    if pieces != [] {
      NonEmptyCount(pieces[1..]);
      assert "" in pieces <==> pieces[0] == "" || "" in pieces[1..];
    }
  }

  lemma NonEmptyFront(x: string, rest: seq<string>)
    ensures NonEmpty([x] + rest) == if x == "" then NonEmpty(rest) else [x] + NonEmpty(rest)
  {
    assert ([x] + rest)[1..] == rest;
  }

  lemma {:induction false} NonEmptyConcat(a: seq<string>, b: seq<string>)
    ensures NonEmpty(a + b) == NonEmpty(a) + NonEmpty(b)
  {
    hide NonEmpty;
    if a == [] {
      NoneNonEmpty();
      assert a + b == b;
    } else {
      var x, rest := a[0], a[1..];
      NonEmptyConcat(rest, b);
      assert a == [x] + rest;
      Regroup([x], rest, b);
      NonEmptyFront(x, rest);
      NonEmptyFront(x, rest + b);
      Regroup([x], NonEmpty(rest), NonEmpty(b));
    }
  }

  lemma NoneNonEmpty()
    ensures NonEmpty([]) == [] && forall s: seq<string> :: [] + s == s
  {
  }

  lemma {:induction false} AllNonEmpty(pieces: seq<string>)
    ensures "" !in NonEmpty(pieces) && ("" !in pieces ==> NonEmpty(pieces) == pieces)
  {
    if pieces != [] {
      AllNonEmpty(pieces[1..]);
      assert pieces == [pieces[0]] + pieces[1..];
    }
  }

  /** Some texts with a separator between any two. */
  function JoinedBy(pieces: seq<string>, sep: char): string {
    if pieces == [] then ""
    else if |pieces| == 1 then pieces[0]
    else JoinedBy(pieces[..|pieces| - 1], sep) + [sep] + pieces[|pieces| - 1]
  }

  /** Splitting joined texts gives them back. */
  lemma {:induction false} JoinedPieces(pieces: seq<string>, sep: char)
    requires pieces != [] && forall x :: x in pieces ==> sep !in x
    ensures Pieces(JoinedBy(pieces, sep), sep) == pieces
  {
    hide PiecesFrom;
    var front, last := pieces[..|pieces| - 1], pieces[|pieces| - 1];
    assert pieces == front + [last] && last in pieces;
    OnePiece("", last, sep);
    assert "" + last == last;
    if front != [] {
      JoinedPieces(front, sep);
      SplitPieces("", JoinedBy(front, sep), last, sep);
    }
  }

  // ----- integers

  predicate IsDigit(c: char) {
    '0' <= c <= '9'
  }

  function DigitOf(d: nat): (c: char)
    requires d < 10
    ensures IsDigit(c) && c as int - '0' as int == d
  {
    ('0' as int + d) as char
  }

  function ValueOf(c: char): (d: nat)
    requires IsDigit(c)
    ensures d < 10
  {
    c as int - '0' as int
  }

  function Digits(n: nat): (s: string)
    ensures s != "" && forall i :: 0 <= i < |s| ==> IsDigit(s[i])
  {
    if n < 10 then [DigitOf(n)] else Digits(n / 10) + [DigitOf(n % 10)]
  }

  /** An integer as printf prints it. */
  function Show(n: int): (s: string)
    ensures s != ""
  {
    if n < 0 then "-" + Digits(-n) else Digits(n)
  }

  const LLONG_MIN := -0x8000_0000_0000_0000
  const LLONG_MAX := 0x7fff_ffff_ffff_ffff

  function Clamp(n: int): int {
    if n < LLONG_MIN then LLONG_MIN else if n > LLONG_MAX then LLONG_MAX else n
  }

  /** A number as it is stored in an int of 32 bits. */
  function ToInt(n: int): (r: int)
    ensures -0x8000_0000 <= r < 0x8000_0000 && (n - r) % 0x1_0000_0000 == 0
    ensures r == n <==> -0x8000_0000 <= n < 0x8000_0000
  {
    (n + 0x8000_0000) % 0x1_0000_0000 - 0x8000_0000
  }

  /** The number that the leading digits of a text stand for, after the digits read so far. */
  function ReadDigits(s: string, n: nat): nat {
    if s != "" && IsDigit(s[0]) then ReadDigits(s[1..], 10 * n + ValueOf(s[0])) else n
  }

  predicate IsSpace(c: char) {
    c == ' ' || '\t' <= c <= '\r'
  }

  /** A text as strtoll reads it: white space, a sign, digits; out-of-range values are clamped. */
  function ReadInt(s: string): int {
    if s != "" && IsSpace(s[0]) then ReadInt(s[1..])
    else if s != "" && s[0] == '-' then Clamp(0 - ReadDigits(s[1..], 0))
    else if s != "" && s[0] == '+' then Clamp(ReadDigits(s[1..], 0))
    else Clamp(ReadDigits(s, 0))
  }

  predicate IsLong(n: int) {
    LLONG_MIN <= n <= LLONG_MAX
  }

  lemma ReadIsLong(s: string)
    ensures IsLong(ReadInt(s))
  {
  }

  function Pow10(k: nat): nat {
    if k == 0 then 1 else 10 * Pow10(k - 1)
  }

  lemma {:induction false} ReadAppend(s: string, t: string, n: nat)
    requires forall i :: 0 <= i < |s| ==> IsDigit(s[i])
    ensures ReadDigits(s + t, n) == ReadDigits(t, ReadDigits(s, n))
  {
    if s == "" {
      assert s + t == t;
    } else {
      assert (s + t)[1..] == s[1..] + t;
      ReadAppend(s[1..], t, 10 * n + ValueOf(s[0]));
    }
  }

  lemma {:induction false} ReadShownDigits(n: nat)
    ensures ReadDigits(Digits(n), 0) == n
  {
    if n >= 10 {
      ReadShownDigits(n / 10);
      var last := [DigitOf(n % 10)];
      ReadAppend(Digits(n / 10), last, 0);
      assert ReadDigits(last, n / 10) == ReadDigits(last[1..], 10 * (n / 10) + n % 10);
    }
  }

  /** Reading what was printed gives the number back. */
  lemma ReadShown(n: int)
    requires LLONG_MIN <= n <= LLONG_MAX
    ensures ReadInt(Show(n)) == n
  {
    if n < 0 {
      ReadShownDigits(-n);
      assert Show(n)[1..] == Digits(-n);
    } else {
      ReadShownDigits(n);
      assert IsDigit(Show(n)[0]);
    }
  }

  lemma ReadForms(s: string)
    ensures ReadInt("-" + s) == Clamp(0 - ReadDigits(s, 0)) && ReadInt("+" + s) == Clamp(ReadDigits(s, 0))
    ensures s != "" && IsDigit(s[0]) ==> ReadInt(s) == Clamp(ReadDigits(s, 0))
    ensures forall c :: IsSpace(c) ==> ReadInt([c] + s) == ReadInt(s)
  {
    assert ("-" + s)[1..] == s && ("+" + s)[1..] == s;
    forall c | IsSpace(c)
      ensures ReadInt([c] + s) == ReadInt(s)
    {
      assert ([c] + s)[1..] == s;
    }
  }

  lemma {:induction false} SkipSpace(space: string, s: string)
    requires forall i :: 0 <= i < |space| ==> IsSpace(space[i])
    ensures ReadInt(space + s) == ReadInt(s)
  {
    hide ReadInt;
    if space == "" {
      assert space + s == s;
    } else {
      SkipSpace(space[1..], s);
      ReadForms(space[1..] + s);
      assert space + s == [space[0]] + (space[1..] + s);
    }
  }

  /**
   * White space, a number, with or without a plus sign, and anything that is no digit: the number is read, or the
   * nearest long integer.
   */
  lemma ReadsNumber(space: string, n: int, rest: string)
    requires forall i :: 0 <= i < |space| ==> space[i] == ' ' || 9 <= space[i] as int <= 13
    requires rest == "" || !('0' <= rest[0] <= '9')
    ensures ReadInt(space + (Show(n) + rest)) ==
      if n > 0x7fff_ffff_ffff_ffff then 0x7fff_ffff_ffff_ffff
      else if n < -0x8000_0000_0000_0000 then -0x8000_0000_0000_0000 else n
    ensures n >= 0 ==> ReadInt(space + ("+" + (Show(n) + rest))) == ReadInt(space + (Show(n) + rest))
  {
    hide ReadInt, Show, IsSpace;
    SpacesAre(space);
    SkipSpace(space, Show(n) + rest);
    SkipSpace(space, "+" + (Show(n) + rest));
    ReadsUnspaced(n, rest);
  }

  lemma SpacesAre(space: string)
    requires forall i :: 0 <= i < |space| ==> space[i] == ' ' || 9 <= space[i] as int <= 13
    ensures forall i :: 0 <= i < |space| ==> IsSpace(space[i])
  {
    assert '\t' as int == 9 && '\r' as int == 13;
  }

  lemma ReadsUnspaced(n: int, rest: string)
    requires rest == "" || !IsDigit(rest[0])
    ensures ReadInt(Show(n) + rest) == Clamp(n)
    ensures n >= 0 ==> ReadInt("+" + (Show(n) + rest)) == Clamp(n)
  {
    hide ReadInt, Digits, ReadDigits, Clamp;
    if n < 0 {
      DigitsAreRead(-n, rest);
      ReadForms(Digits(-n) + rest);
      Regroup("-", Digits(-n), rest);
    } else {
      DigitsAreRead(n, rest);
      ReadForms(Digits(n) + rest);
    }
  }

  lemma DigitsAreRead(m: nat, rest: string)
    requires rest == "" || !IsDigit(rest[0])
    ensures ReadDigits(Digits(m) + rest, 0) == m && Digits(m) + rest != "" && IsDigit((Digits(m) + rest)[0])
  {
    hide Digits, ReadDigits;
    ReadShownDigits(m);
    ReadAppend(Digits(m), rest, 0);
    NoDigits(rest, m);
  }

  lemma NoDigits(rest: string, n: nat)
    requires rest == "" || !IsDigit(rest[0])
    ensures ReadDigits(rest, n) == n
  {
  }

  lemma {:induction false} DigitsFit(n: nat, k: nat)
    requires n < Pow10(k) && 0 < k
    ensures |Digits(n)| <= k
  {
    if n >= 10 {
      DigitsFit(n / 10, k - 1);
    }
  }

  /** The value of at most |s| digits. */
  lemma {:induction false} ReadBound(s: string, n: nat, k: nat)
    requires n < Pow10(k)
    ensures ReadDigits(s, n) < Pow10(k + |s|)
  {
    if s != "" && IsDigit(s[0]) {
      assert 10 * n + ValueOf(s[0]) < Pow10(k + 1);
      ReadBound(s[1..], 10 * n + ValueOf(s[0]), k + 1);
    } else {
      PowGrows(k, |s|);
    }
  }

  lemma {:induction false} PowGrows(k: nat, d: nat)
    ensures Pow10(k) <= Pow10(k + d)
  {
    if d > 0 {
      PowGrows(k, d - 1);
    }
  }

  /** A clamped number needs no more digits. */
  lemma ClampedFits(t: string, negative: bool)
    requires t != ""
    ensures var n := Clamp(if negative then 0 - ReadDigits(t, 0) else ReadDigits(t, 0));
            |Digits(if n < 0 then -n else n)| <= |t| && (n < 0 ==> negative)
  {
    var n: int := ReadDigits(t, 0);
    ReadBound(t, 0, 0);
    hide ReadDigits, Digits, Pow10;
    var m := Clamp(if negative then 0 - n else n);
    DigitsFit(if m < 0 then -m else m, |t|);
  }

  /** A number read from a text is printed in no more characters. */
  lemma {:induction false} ShownFits(s: string)
    requires s != ""
    ensures |Show(ReadInt(s))| <= |s| && LLONG_MIN <= ReadInt(s) <= LLONG_MAX
  {
    hide Digits, ReadDigits;
    if IsSpace(s[0]) {
      if |s| > 1 {
        ShownFits(s[1..]);
      } else {
        NothingRead(s);
      }
    } else if s[0] == '-' || s[0] == '+' {
      if |s| > 1 {
        ClampedFits(s[1..], s[0] == '-');
      } else {
        NothingRead(s);
      }
    } else {
      ClampedFits(s, false);
    }
  }

  lemma NothingRead(s: string)
    requires |s| == 1 && (IsSpace(s[0]) || s[0] == '-' || s[0] == '+')
    ensures ReadInt(s) == 0 && |Show(0)| == 1
  {
    assert s[1..] == "";
    assert ReadDigits("", 0) == 0 && ReadInt("") == 0;
  }
}
