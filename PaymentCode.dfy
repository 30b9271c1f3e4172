/** generatePaymentCode(userId): "U", then the last two characters of the
    user id padded with '0', then three characters drawn from a 32-letter
    alphabet without look-alike characters. The random draws are supplied
    by the caller as indices into the alphabet. */
module PaymentCode {

  /** 24 letters without I and O, and the digits 2 to 9. */
  const Alphabet: string := "ABCDEFGHJKLMNPQRSTUVWXYZ23456789"

  /** The alphabet holds 32 different characters and none of the look-alikes
      I, O, 0 and 1, so each draw picks one of 32 distinct characters. */
  lemma AlphabetDistinct()
    ensures |Alphabet| == 32
    ensures forall i, j :: 0 <= i < j < |Alphabet| ==> Alphabet[i] != Alphabet[j]
    ensures forall i :: 0 <= i < |Alphabet| ==> Alphabet[i] !in "IO01"
  {
    forall i, j | 0 <= i < j < |Alphabet|
      ensures Alphabet[i] != Alphabet[j]
    {
      assert Alphabet[..24] == "ABCDEFGHJKLMNPQRSTUVWXYZ";
    }
  }

  const DigitChars: string := "0123456789"

  /** The decimal digits of `n`, most significant first, as String(n)
      writes a non-negative integer. */
  function Digits(n: nat): (r: string)
    ensures |r| >= 1
    ensures r[|r| - 1] == DigitChars[n % 10]
    ensures n >= 10 ==> |r| >= 2 && r[|r| - 2] == DigitChars[n / 10 % 10]
    ensures n < 10 ==> |r| == 1
  {
    if n < 10 then [DigitChars[n]] else Digits(n / 10) + [DigitChars[n % 10]]
  }

  /** String(n) for an integer `n` below 1e21 in magnitude; JavaScript
      switches to exponent notation from 1e21 on, which is not modelled. */
  function DecimalString(n: int): (r: string)
    ensures n >= 0 ==> r == Digits(n)
    ensures n < 0 ==> r == "-" + Digits(-n)
    ensures |r| >= 1 && r[|r| - 1] == DigitChars[(if n < 0 then -n else n) % 10]
  {
    if n < 0 then "-" + Digits(-n) else Digits(n)
  }

  /** `s.slice(start)`: a negative start counts from the end and is clamped
      at the beginning. */
  function SliceFrom(s: string, start: int): (r: string)
    ensures |r| <= |s| && r == s[|s| - |r|..]
    ensures start < 0 ==> |r| == if -start < |s| then -start else |s|
    ensures 0 <= start ==> |r| == if start < |s| then |s| - start else 0
  {
    var from := if start < 0 then (if |s| + start < 0 then 0 else |s| + start)
                else (if start < |s| then start else |s|);
    s[from..]
  }

  /** `s.padStart(width, pad)` with a one-character pad. */
  function PadStart(s: string, width: nat, pad: char): (r: string)
    ensures |s| >= width ==> r == s
    ensures |s| < width ==> |r| == width && r[width - |s|..] == s &&
                            forall i :: 0 <= i < width - |s| ==> r[i] == pad
  {
    if |s| >= width then s else seq(width - |s|, _ => pad) + s
  }

  /** `String(userId).slice(-2).padStart(2, '0')`. */
  function UserPart(userId: int): (r: string)
    ensures |r| == 2
  {
    PadStart(SliceFrom(DecimalString(userId), -2), 2, '0')
  }

  /** For a non-negative id the user part is its last two decimal digits
      (the tens digit is '0' below ten). */
  lemma UserPartDigits(userId: nat)
    ensures UserPart(userId) == [DigitChars[userId / 10 % 10], DigitChars[userId % 10]]
  {
    var d := Digits(userId);
    assert DecimalString(userId) == d;
    var tail := SliceFrom(d, -2);
    if userId >= 10 {
      assert |tail| == 2 && tail == d[|d| - 2..];
      assert tail == [d[|d| - 2], d[|d| - 1]];
      assert PadStart(tail, 2, '0') == tail;
      assert UserPart(userId) == PadStart(tail, 2, '0');
    } else {
      assert |d| == 1 && tail == d;
      assert PadStart(d, 2, '0') == ['0'] + d;
      assert UserPart(userId) == PadStart(d, 2, '0');
    }
  }

  /** The code generated for `userId` from the draws `picks`: "U", the user
      part, then the three drawn characters. */
  function CodeOf(userId: int, picks: seq<int>): (code: string)
    requires |picks| == 3
    requires forall i :: 0 <= i < |picks| ==> 0 <= picks[i] < |Alphabet|
    ensures |code| == 6 && code[0] == 'U'
    ensures code[1..3] == UserPart(userId)
    ensures code[3..] == [Alphabet[picks[0]], Alphabet[picks[1]], Alphabet[picks[2]]]
  {
    var user := UserPart(userId);
    var drawn := [Alphabet[picks[0]], Alphabet[picks[1]], Alphabet[picks[2]]];
    var code := "U" + user + drawn;
    assert code[1..3] == user && code[3..] == drawn;
    code
  }

  /** A drawn character determines the index it was drawn at. */
  lemma DrawDeterminesIndex(i: int, j: int)
    requires 0 <= i < |Alphabet| && 0 <= j < |Alphabet|
    ensures Alphabet[i] == Alphabet[j] <==> i == j
  {
    AlphabetDistinct();
    if i < j {
      assert Alphabet[i] != Alphabet[j];
    } else if j < i {
      assert Alphabet[j] != Alphabet[i];
    }
  }

  /** The three drawn characters determine the three draws. */
  lemma DrawsDetermineIndices(picks: seq<int>, picks': seq<int>)
    requires |picks| == 3 && |picks'| == 3
    requires forall i :: 0 <= i < |picks| ==> 0 <= picks[i] < |Alphabet|
    requires forall i :: 0 <= i < |picks'| ==> 0 <= picks'[i] < |Alphabet|
    requires [Alphabet[picks[0]], Alphabet[picks[1]], Alphabet[picks[2]]] ==
             [Alphabet[picks'[0]], Alphabet[picks'[1]], Alphabet[picks'[2]]]
    ensures picks == picks'
  {
    DrawDeterminesIndex(picks[0], picks'[0]);
    DrawDeterminesIndex(picks[1], picks'[1]);
    DrawDeterminesIndex(picks[2], picks'[2]);
  }

  /** Equal codes come from equal user parts and the same three draws. */
  lemma EqualCodesSameDraws(userId: int, other: int, picks: seq<int>, picks': seq<int>)
    requires |picks| == 3 && |picks'| == 3
    requires forall i :: 0 <= i < |picks| ==> 0 <= picks[i] < |Alphabet|
    requires forall i :: 0 <= i < |picks'| ==> 0 <= picks'[i] < |Alphabet|
    requires CodeOf(userId, picks) == CodeOf(other, picks')
    ensures UserPart(userId) == UserPart(other) && picks == picks'
  {
    var c := CodeOf(userId, picks);
    assert c[3..] == CodeOf(other, picks')[3..];
    DrawsDetermineIndices(picks, picks');
  }

  /** Two codes are equal exactly when the user parts are equal and the three
      draws were the same: the alphabet has no repeated character. */
  lemma CodeOfDeterminesDraws(userId: int, other: int, picks: seq<int>, picks': seq<int>)
    requires |picks| == 3 && |picks'| == 3
    requires forall i :: 0 <= i < |picks| ==> 0 <= picks[i] < |Alphabet|
    requires forall i :: 0 <= i < |picks'| ==> 0 <= picks'[i] < |Alphabet|
    ensures CodeOf(userId, picks) == CodeOf(other, picks') <==>
      UserPart(userId) == UserPart(other) && picks == picks'
  {
    if CodeOf(userId, picks) == CodeOf(other, picks') {
      EqualCodesSameDraws(userId, other, picks, picks');
    }
  }

  /** generatePaymentCode(userId), building the random part character by
      character as the source's loop does. */
  method GeneratePaymentCode(userId: int, picks: seq<int>) returns (code: string)
    requires |picks| == 3
    requires forall i :: 0 <= i < |picks| ==> 0 <= picks[i] < |Alphabet|
    ensures code == CodeOf(userId, picks)
  {
    var randomPart := "";
    for i := 0 to 3
      invariant |randomPart| == i
      invariant forall k :: 0 <= k < i ==> randomPart[k] == Alphabet[picks[k]]
    {
      randomPart := randomPart + [Alphabet[picks[i]]];
    }
    assert randomPart == [Alphabet[picks[0]], Alphabet[picks[1]], Alphabet[picks[2]]];
    var userPart := UserPart(userId);
    code := "U" + userPart + randomPart;
  }
}
