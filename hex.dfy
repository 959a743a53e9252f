/** The legacy hex replay codec: moves are packed two to a hex digit through a
    4x4 table, an unpaired last move is packed as if followed by D, and the
    digits are written in groups of four separated by spaces. Decoding looks
    each hex digit up in the reverse table and ignores every other character. */
module Hex {
  import opened Moves

  const HexChars: string := "0123456789ABCDEF"

  /** Membership in the digit list, written as the two ranges it covers. */
  predicate IsHexChar(c: char) {
    '0' <= c <= '9' || 'A' <= c <= 'F'
  }

  lemma IsHexCharIsListed(c: char)
    ensures IsHexChar(c) <==> c in HexChars
  {
    if IsHexChar(c) {
      var i := if c <= '9' then c as int - '0' as int else c as int - 'A' as int + 10;
      assert HexChars[i] == c;
    }
  }

  /** The forward table: row = first move, column = second move. */
  function ForwardLookup(m1: Move, m2: Move): (c: char)
    ensures IsHexChar(c)
  {
    var row := if m1 == 'L' then "0123"
               else if m1 == 'R' then "4567"
               else if m1 == 'D' then "89AB"
               else "CDEF";
    row[MoveIndex(m2)]
  }

  /** The reverse table. Digit 0 maps to L followed by the letter E, which is
      not a move; every other digit maps back to its pair of moves. */
  function ReverseLookup(c: char): (pair: string)
    requires IsHexChar(c)
    ensures |pair| == 2
  {
    if c == '0' then "LE"
    else if c == '1' then "LR"
    else if c == '2' then "LD"
    else if c == '3' then "LU"
    else if c == '4' then "RL"
    else if c == '5' then "RR"
    else if c == '6' then "RD"
    else if c == '7' then "RU"
    else if c == '8' then "DL"
    else if c == '9' then "DR"
    else if c == 'A' then "DD"
    else if c == 'B' then "DU"
    else if c == 'C' then "UL"
    else if c == 'D' then "UR"
    else if c == 'E' then "UD"
    else "UU"
  }

  /** The forward table is laid out row-major over L, R, D, U. */
  lemma ForwardLookupRowMajor(m1: Move, m2: Move)
    ensures ForwardLookup(m1, m2) == HexChars[4 * MoveIndex(m1) + MoveIndex(m2)]
  {
  }

  /** Distinct ordered pairs of moves get distinct digits. */
  lemma ForwardLookupInjective(a: Move, b: Move, c: Move, d: Move)
    ensures ForwardLookup(a, b) == ForwardLookup(c, d) <==> a == c && b == d
  {
    ForwardLookupRowMajor(a, b);
    ForwardLookupRowMajor(c, d);
  }

  /** Looking a digit up in the reverse table and then in the forward table
      gives the digit back, except for digit 0, whose reverse entry is not a
      pair of moves. */
  lemma ForwardOfReverse(c: char)
    requires IsHexChar(c)
    ensures c == '0' <==> ReverseLookup(c) == "LE"
    ensures c != '0' ==>
      var p := ReverseLookup(c);
      IsMove(p[0]) && IsMove(p[1]) && ForwardLookup(p[0], p[1]) == c
  {
  }

  /** Looking a pair up in the forward table and then in the reverse table
      gives the pair back, except that (L, L) comes back as L, E. */
  lemma ReverseOfForward(a: Move, b: Move)
    ensures ReverseLookup(ForwardLookup(a, b)) == if a == 'L' && b == 'L' then "LE" else [a, b]
  {
  }

  /** The digits `encode` produces before spacing: one per aligned pair of
      moves, an unpaired last move packed with D. */
  function Digits(moves: seq<Move>): (s: string)
    ensures |s| == (|moves| + 1) / 2
    ensures forall i :: 0 <= i < |s| ==> IsHexChar(s[i])
    decreases |moves|
  {
    if |moves| == 0 then []
    else if |moves| == 1 then [ForwardLookup(moves[0], 'D')]
    else [ForwardLookup(moves[0], moves[1])] + Digits(moves[2..])
  }

  /** Digit k packs moves 2k and 2k+1, with D standing in for a missing move
      2k+1: the index-based form of the encoder's mapping. */
  lemma {:induction false} DigitsAt(moves: seq<Move>, k: nat)
    requires k < (|moves| + 1) / 2
    ensures Digits(moves)[k] ==
      ForwardLookup(moves[2 * k], if 2 * k + 1 < |moves| then moves[2 * k + 1] else 'D')
    decreases |moves|
  {
    if k > 0 {
      DigitsAt(moves[2..], k - 1);
    }
  }

  /** A move sequence extended by a trailing D when its length is odd. */
  function Pad(moves: seq<Move>): (p: seq<Move>)
    ensures |p| % 2 == 0
    ensures moves <= p && |p| <= |moves| + 1
    ensures |p| > |moves| ==> p[|moves|] == 'D'
  {
    if |moves| % 2 == 1 then moves + ['D'] else moves
  }

  /** Encoding an odd-length sequence is encoding it padded with D. */
  lemma {:induction false} DigitsPad(moves: seq<Move>)
    ensures Digits(Pad(moves)) == Digits(moves)
    decreases |moves|
  {
    if |moves| >= 2 {
      DigitsPad(moves[2..]);
      if |moves| % 2 == 1 {
        assert (moves + ['D'])[2..] == moves[2..] + ['D'];
      }
    }
  }

  /** The effect of the global replace of four characters by those four and a
      space: a space after every complete group of four. The encoder applies it
      to hex digits only, so line terminators (which the pattern's dot would
      not match) never occur. */
  function Group(s: string): (g: string)
    ensures |g| == |s| + |s| / 4
    decreases |s|
  {
    if |s| < 4 then s else s[..4] + " " + Group(s[4..])
  }

  /** Position i of the grouped text is a space exactly when i % 5 == 4;
      every other position holds character i - i / 5 of the ungrouped text. */
  lemma {:induction false} GroupAt(s: string, i: nat)
    requires i < |Group(s)|
    ensures i % 5 == 4 ==> Group(s)[i] == ' '
    ensures i % 5 != 4 ==> Group(s)[i] == s[i - i / 5]
    decreases |s|
  {
    if |s| < 4 || i < 5 {
      assert i % 5 == i && i / 5 == 0;
      if |s| >= 4 {
        assert Group(s)[i] == (s[..4] + " ")[i];
      }
    } else {
      assert (i - 5) % 5 == i % 5 && (i - 5) / 5 == i / 5 - 1;
      GroupAt(s[4..], i - 5);
      assert Group(s)[i] == Group(s[4..])[i - 5];
    }
  }

  function Encode(moves: seq<Move>): (text: string)
    ensures |text| == (|moves| + 1) / 2 + (|moves| + 1) / 2 / 4
  {
    Group(Digits(moves))
  }

  /** Without its spaces the encoding has ceil(|moves| / 2) digits, and it has
      a space after each complete group of four digits and nowhere else. */
  lemma EncodeLayout(moves: seq<Move>, i: nat)
    requires i < |Encode(moves)|
    ensures Encode(moves)[i] == ' ' <==> i % 5 == 4
    ensures i % 5 != 4 ==> Encode(moves)[i] == Digits(moves)[i - i / 5]
  {
    GroupAt(Digits(moves), i);
  }

  /** The hex digits of a text, in order. */
  function HexDigitsOf(s: string): (d: string)
    ensures |d| <= |s|
    ensures forall i :: 0 <= i < |d| ==> IsHexChar(d[i])
  {
    if s == [] then []
    else (if IsHexChar(s[0]) then [s[0]] else []) + HexDigitsOf(s[1..])
  }

  function Decode(s: string): (moves: string)
    ensures |moves| == 2 * |HexDigitsOf(s)|
  {
    if s == [] then []
    else (if IsHexChar(s[0]) then ReverseLookup(s[0]) else []) + Decode(s[1..])
  }

  lemma {:induction false} DecodeAppend(a: string, b: string)
    ensures Decode(a + b) == Decode(a) + Decode(b)
    decreases |a|
  {
    if a != [] {
      var head := if IsHexChar(a[0]) then ReverseLookup(a[0]) else [];
      assert (a + b)[0] == a[0];
      assert (a + b)[1..] == a[1..] + b;
      DecodeAppend(a[1..], b);
      calc {
        Decode(a + b);
        head + Decode(a[1..] + b);
        head + (Decode(a[1..]) + Decode(b));
        (head + Decode(a[1..])) + Decode(b);
        { assert Decode(a) == head + Decode(a[1..]); }
        Decode(a) + Decode(b);
      }
    } else {
      assert a + b == b;
    }
  }

  /** Every character outside 0-9A-F, spaces and lower-case letters
      included, is dropped. */
  lemma {:induction false} DecodeIgnoresNonHex(s: string)
    ensures Decode(s) == Decode(HexDigitsOf(s))
    decreases |s|
  {
    if s != [] {
      DecodeIgnoresNonHex(s[1..]);
      var head := if IsHexChar(s[0]) then [s[0]] else [];
      DecodeAppend(head, HexDigitsOf(s[1..]));
    }
  }

  /** Each kept digit contributes exactly its reverse-table pair, in order. */
  lemma {:induction false} DecodeAt(s: string, k: nat)
    requires forall i :: 0 <= i < |s| ==> IsHexChar(s[i])
    requires k < |s|
    ensures |Decode(s)| == 2 * |s|
    ensures Decode(s)[2 * k..2 * k + 2] == ReverseLookup(s[k])
    decreases |s|
  {
    var rest := Decode(s[1..]);
    assert Decode(s) == ReverseLookup(s[0]) + rest;
    if k > 0 {
      DecodeAt(s[1..], k - 1);
      assert Decode(s)[2 * k..2 * k + 2] == rest[2 * (k - 1)..2 * (k - 1) + 2];
    } else if |s| > 1 {
      DecodeAt(s[1..], 0);
    } else {
      assert rest == [];
    }
  }

  lemma {:induction false} DecodeGroup(s: string)
    ensures Decode(Group(s)) == Decode(s)
    decreases |s|
  {
    if |s| >= 4 {
      DecodeGroup(s[4..]);
      DecodeAppend(s[..4] + " ", Group(s[4..]));
      DecodeAppend(s[..4], " ");
      assert Decode(" ") == [];
      DecodeAppend(s[..4], s[4..]);
      assert s[..4] + s[4..] == s;
    }
  }

  /** The sequence a decoder recovers from an even-length sequence: each
      aligned pair (L, L) comes back as L, E, since digit 0 decodes that way. */
  function ZeroQuirk(p: seq<Move>): (q: string)
    requires |p| % 2 == 0
    ensures |q| == |p|
  {
    if p == [] then []
    else (if p[0] == 'L' && p[1] == 'L' then "LE" else [p[0], p[1]]) + ZeroQuirk(p[2..])
  }

  /** No aligned pair of an even-length sequence is (L, L). */
  predicate NoAlignedLL(p: seq<Move>)
    requires |p| % 2 == 0
  {
    p == [] || (!(p[0] == 'L' && p[1] == 'L') && NoAlignedLL(p[2..]))
  }

  lemma {:induction false} ZeroQuirkIdentity(p: seq<Move>)
    requires |p| % 2 == 0
    ensures ZeroQuirk(p) == p <==> NoAlignedLL(p)
    decreases |p|
  {
    if p != [] {
      ZeroQuirkIdentity(p[2..]);
      if p[0] == 'L' && p[1] == 'L' {
        assert ZeroQuirk(p)[1] == 'E';
      } else {
        var head: seq<Move> := [p[0], p[1]];
        assert p == head + p[2..];
        if ZeroQuirk(p) == p {
          assert ZeroQuirk(p)[2..] == ZeroQuirk(p[2..]);
        }
      }
    }
  }

  lemma {:induction false} DecodeDigits(p: seq<Move>)
    requires |p| % 2 == 0
    ensures Decode(Digits(p)) == ZeroQuirk(p)
    decreases |p|
  {
    if p != [] {
      DecodeDigits(p[2..]);
      var d := ForwardLookup(p[0], p[1]);
      DecodeAppend([d], Digits(p[2..]));
      ReverseOfForward(p[0], p[1]);
    }
  }

  /** Decoding an encoding gives back the sequence padded with D, except that
      every aligned pair (L, L) comes back as L, E. */
  lemma RoundTrip(moves: seq<Move>)
    ensures Decode(Encode(moves)) == ZeroQuirk(Pad(moves))
  {
    DecodeGroup(Digits(moves));
    DigitsPad(moves);
    DecodeDigits(Pad(moves));
  }

  /** Decoding an encoding gives back exactly the padded sequence if and only
      if no aligned pair of it is (L, L). */
  lemma RoundTripExact(moves: seq<Move>)
    ensures Decode(Encode(moves)) == Pad(moves) <==> NoAlignedLL(Pad(moves))
  {
    RoundTrip(moves);
    ZeroQuirkIdentity(Pad(moves));
  }

  /** The codec's own example: "A9E" decodes to D, D, D, R, U, D. */
  lemma DecodeExample()
    ensures Decode("A9E") == "DDDRUD"
  {
  }

  lemma EncodeExample()
    ensures Encode("DDDRUD") == "A9E"
    ensures Encode("DDDDDDDDDDL") == "AAAA A2"
  {
  }

  /** The smallest input that shows the digit-0 entry: (L, L) encodes to
      digit 0, which decodes to L followed by E. */
  lemma ZeroDigitCounterexample()
    ensures Encode("LL") == "0"
    ensures Decode(Encode("LL")) == "LE" && Decode(Encode("LL")) != "LL"
  {
    assert Digits("LL") == [ForwardLookup('L', 'L')];
  }

  /** A move from its position in the order L, R, D, U. */
  function MoveAt(k: nat): (m: Move)
    requires k < 4
    ensures MoveIndex(m) == k
  {
    if k == 0 then 'L' else if k == 1 then 'R' else if k == 2 then 'D' else 'U'
  }

  /** The value of a hex digit: its position in the digit list. */
  function HexValue(c: char): (v: nat)
    requires IsHexChar(c)
    ensures v < 16 && HexChars[v] == c
  {
    if c <= '9' then c as int - '0' as int else c as int - 'A' as int + 10
  }

  /** The reverse table as the forward table implies it: each digit maps to
      the one pair of moves that encodes to it, so digit 0 maps to (L, L). */
  function IntendedReverseLookup(c: char): (pair: seq<Move>)
    requires IsHexChar(c)
    ensures |pair| == 2 && ForwardLookup(pair[0], pair[1]) == c
  {
    var v := HexValue(c);
    ForwardLookupRowMajor(MoveAt(v / 4), MoveAt(v % 4));
    [MoveAt(v / 4), MoveAt(v % 4)]
  }

  /** The corrected table differs from the written one at digit 0 only. */
  lemma IntendedReverseLookupAgrees(c: char)
    requires IsHexChar(c)
    ensures c == '0' ==> IntendedReverseLookup(c) == "LL"
    ensures c != '0' ==> IntendedReverseLookup(c) == ReverseLookup(c)
  {
    var pair := IntendedReverseLookup(c);
    if c == '0' {
      ForwardLookupInjective(pair[0], pair[1], 'L', 'L');
    } else {
      ForwardOfReverse(c);
      var p := ReverseLookup(c);
      ForwardLookupInjective(pair[0], pair[1], p[0], p[1]);
    }
  }

  /** With the corrected table, every pair of moves comes back as it was. */
  lemma IntendedReverseOfForward(a: Move, b: Move)
    ensures IntendedReverseLookup(ForwardLookup(a, b)) == [a, b]
  {
    var pair := IntendedReverseLookup(ForwardLookup(a, b));
    ForwardLookupInjective(pair[0], pair[1], a, b);
  }

  /** The decoder with the corrected table. */
  function DecodeIntended(s: string): (moves: seq<Move>)
    ensures |moves| == 2 * |HexDigitsOf(s)|
  {
    if s == [] then []
    else (if IsHexChar(s[0]) then IntendedReverseLookup(s[0]) else []) + DecodeIntended(s[1..])
  }

  lemma {:induction false} DecodeIntendedAppend(a: string, b: string)
    ensures DecodeIntended(a + b) == DecodeIntended(a) + DecodeIntended(b)
    decreases |a|
  {
    if a != [] {
      var head := if IsHexChar(a[0]) then IntendedReverseLookup(a[0]) else [];
      assert (a + b)[0] == a[0];
      assert (a + b)[1..] == a[1..] + b;
      DecodeIntendedAppend(a[1..], b);
      calc {
        DecodeIntended(a + b);
        head + DecodeIntended(a[1..] + b);
        head + (DecodeIntended(a[1..]) + DecodeIntended(b));
        (head + DecodeIntended(a[1..])) + DecodeIntended(b);
        { assert DecodeIntended(a) == head + DecodeIntended(a[1..]); }
        DecodeIntended(a) + DecodeIntended(b);
      }
    } else {
      assert a + b == b;
    }
  }

  lemma {:induction false} DecodeIntendedGroup(s: string)
    ensures DecodeIntended(Group(s)) == DecodeIntended(s)
    decreases |s|
  {
    if |s| >= 4 {
      DecodeIntendedGroup(s[4..]);
      DecodeIntendedAppend(s[..4] + " ", Group(s[4..]));
      DecodeIntendedAppend(s[..4], " ");
      assert DecodeIntended(" ") == [];
      DecodeIntendedAppend(s[..4], s[4..]);
      assert s[..4] + s[4..] == s;
    }
  }

  lemma {:induction false} DecodeIntendedDigits(p: seq<Move>)
    requires |p| % 2 == 0
    ensures DecodeIntended(Digits(p)) == p
    decreases |p|
  {
    if p != [] {
      DecodeIntendedDigits(p[2..]);
      DecodeIntendedAppend([ForwardLookup(p[0], p[1])], Digits(p[2..]));
      IntendedReverseOfForward(p[0], p[1]);
      assert p == [p[0], p[1]] + p[2..];
    }
  }

  /** With the corrected table the round trip is exact: decoding an encoding
      gives back the sequence, padded with D when its length is odd. */
  lemma RoundTripIntended(moves: seq<Move>)
    ensures DecodeIntended(Encode(moves)) == Pad(moves)
  {
    DecodeIntendedGroup(Digits(moves));
    DigitsPad(moves);
    DecodeIntendedDigits(Pad(moves));
  }
}
