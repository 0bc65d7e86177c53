/**
 UUID strings. The service accepts any letter case and lowers it before it compares; the
 database stores the 128-bit value. The rest of this model uses numbers for ids, which is
 right because lowered strings are equal and ordered exactly as their values are.
 */
module Identifiers {

  predicate IsHex(c: char) {
    '0' <= c <= '9' || 'a' <= c <= 'f' || 'A' <= c <= 'F'
  }

  lemma HexDigits(c: char)
    ensures IsHex(c) <==> c in "0123456789abcdefABCDEF"
  {
  }

  function Lower(c: char): char {
    if 'A' <= c <= 'Z' then c + ('a' - 'A') else c
  }

  function Digit(c: char): nat
    requires IsHex(c)
  {
    if c <= '9' then (c - '0') as nat else 10 + (Lower(c) - 'a') as nat
  }

  predicate HyphenAt(i: nat) {
    i == 8 || i == 13 || i == 18 || i == 23
  }

  function Compact(s: string): string
    requires |s| == 36
  {
    s[..8] + s[9..13] + s[14..18] + s[19..23] + s[24..]
  }

  predicate AllHex(s: string) {
    forall i | 0 <= i < |s| :: IsHex(s[i])
  }

  /** What normalizeChatIDs accepts: 36 characters, four hyphens, the rest decodes as hex. */
  predicate Accepted(s: string) {
    |s| == 36 && s[8] == '-' && s[13] == '-' && s[18] == '-' && s[23] == '-' && AllHex(Compact(s))
  }

  function ToLower(s: string): string {
    seq(|s|, i requires 0 <= i < |s| => Lower(s[i]))
  }

  /** The number a hexadecimal string writes, hyphens aside. */
  function Value(s: string): nat
    requires forall i | 0 <= i < |s| :: s[i] == '-' || IsHex(s[i])
  {
    if s == "" then 0
    else
      var init, last := s[..|s| - 1], s[|s| - 1];
      if last == '-' then Value(init) else 16 * Value(init) + Digit(last)
  }

  /** Byte order of strings. */
  predicate Less(s: string, t: string) {
    t != "" && (s == "" || s[0] < t[0] || (s[0] == t[0] && Less(s[1..], t[1..])))
  }

  lemma AcceptedShape(s: string)
    requires |s| == 36
    ensures Accepted(s) <==> forall i | 0 <= i < 36 :: if HyphenAt(i) then s[i] == '-' else IsHex(s[i])
  {
    var c := Compact(s);
    assert forall i | 0 <= i < 8 :: s[i] == c[i];
    assert forall i | 9 <= i < 13 :: s[i] == c[i - 1];
    assert forall i | 14 <= i < 18 :: s[i] == c[i - 2];
    assert forall i | 19 <= i < 23 :: s[i] == c[i - 3];
    assert forall i | 24 <= i < 36 :: s[i] == c[i - 4];
    if forall i | 0 <= i < 36 :: if HyphenAt(i) then s[i] == '-' else IsHex(s[i]) {
      forall k | 0 <= k < |c|
        ensures IsHex(c[k])
      {
        var i := if k < 8 then k else if k < 12 then k + 1 else if k < 16 then k + 2 else if k < 20 then k + 3 else k + 4;
        assert c[k] == s[i] && !HyphenAt(i);
      }
    }
  }

  /** Both strings have hyphens at the same places and lower-case digits elsewhere. */
  ghost predicate Aligned(s: string, t: string) {
    && |s| == |t|
    && forall i | 0 <= i < |s| ::
         (s[i] == '-' && t[i] == '-') || (IsHex(s[i]) && IsHex(t[i]) && s[i] == Lower(s[i]) && t[i] == Lower(t[i]))
  }

  lemma {:induction false} LessByLast(s: string, t: string)
    requires |s| == |t| > 0
    ensures var n := |s| - 1;
            Less(s, t) <==> Less(s[..n], t[..n]) || (s[..n] == t[..n] && s[n] < t[n])
  {
    var n := |s| - 1;
    if n > 0 {
      LessByLast(s[1..], t[1..]);
      assert s[1..][..n - 1] == s[..n][1..] && t[1..][..n - 1] == t[..n][1..];
      assert s[..n] == [s[0]] + s[..n][1..] && t[..n] == [t[0]] + t[..n][1..];
    }
  }

  lemma DigitOrder(c: char, d: char)
    requires IsHex(c) && IsHex(d) && c == Lower(c) && d == Lower(d)
    ensures c < d <==> Digit(c) < Digit(d)
    ensures c == d <==> Digit(c) == Digit(d)
    ensures Digit(c) < 16 && Digit(d) < 16
  {
  }

  lemma NumberOrder(x: nat, y: nat, c: nat, d: nat)
    requires c < 16 && d < 16
    ensures 16 * x + c < 16 * y + d <==> x < y || (x == y && c < d)
    ensures 16 * x + c == 16 * y + d <==> x == y && c == d
  {
  }

  lemma ValueNext(s: string, c: char)
    requires (forall i | 0 <= i < |s| :: s[i] == '-' || IsHex(s[i])) && (c == '-' || IsHex(c))
    ensures forall i | 0 <= i < |s| + 1 :: (s + [c])[i] == '-' || IsHex((s + [c])[i])
    ensures Value(s + [c]) == if c == '-' then Value(s) else 16 * Value(s) + Digit(c)
  {
    assert (s + [c])[..|s|] == s;
  }

  ghost predicate OrderAgrees(s: string, t: string)
    requires Aligned(s, t)
  {
    (Less(s, t) <==> Value(s) < Value(t)) && (s == t <==> Value(s) == Value(t))
  }

  /** One more character of each. */
  lemma AlignedNext(s: string, t: string, c: char, d: char, s': string, t': string)
    requires s' == s + [c] && t' == t + [d] && Aligned(s', t') && Aligned(s, t) && OrderAgrees(s, t)
    ensures OrderAgrees(s', t')
  {
    assert s'[..|s|] == s && t'[..|t|] == t && s'[|s|] == c && t'[|t|] == d;
    ValueNext(s, c);
    ValueNext(t, d);
    LessByLast(s', t');
    if c != '-' {
      DigitOrder(c, d);
      NumberOrder(Value(s), Value(t), Digit(c), Digit(d));
    }
  }

  lemma {:induction false} AlignedOrder(s: string, t: string)
    requires Aligned(s, t)
    ensures OrderAgrees(s, t)
  {
    if s != "" {
      var n := |s| - 1;
      AlignedOrder(s[..n], t[..n]);
      AlignedNext(s[..n], t[..n], s[n], t[n], s, t);
    }
  }

  lemma {:induction false} LowerKeepsValue(s: string)
    requires forall i | 0 <= i < |s| :: s[i] == '-' || IsHex(s[i])
    ensures forall i | 0 <= i < |s| :: ToLower(s)[i] == '-' || IsHex(ToLower(s)[i])
    ensures Value(ToLower(s)) == Value(s)
  {
    if s != "" {
      var n := |s| - 1;
      LowerKeepsValue(s[..n]);
      assert ToLower(s)[..n] == ToLower(s[..n]);
    }
  }

  /** Accepted strings keep their shape and value when lowered, and lowering again changes nothing. */
  lemma LoweredIsAccepted(s: string)
    requires Accepted(s)
    ensures forall i | 0 <= i < |s| :: s[i] == '-' || IsHex(s[i])
    ensures Accepted(ToLower(s)) && ToLower(ToLower(s)) == ToLower(s)
    ensures (forall i | 0 <= i < 36 :: ToLower(s)[i] == '-' || IsHex(ToLower(s)[i])) && Value(ToLower(s)) == Value(s)
  {
    AcceptedShape(s);
    assert forall i | 0 <= i < |s| :: s[i] == '-' || IsHex(s[i]) by {
      assert forall i | 0 <= i < |s| :: HyphenAt(i) || IsHex(s[i]);
    }
    LowerKeepsValue(s);
    AcceptedShape(ToLower(s));
  }

  /** The value of an accepted string. */
  function IdOf(s: string): nat
    requires Accepted(s)
  {
    LoweredIsAccepted(s);
    Value(s)
  }

  /**
   After normalization ids are the same string exactly when they are the same UUID, and the
   service's string order, by which normalizeUserPair sorts, is the database's order, by
   which the reaction user lists are sorted.
   */
  lemma NormalizedIdsCompareAsValues(a: string, b: string)
    requires Accepted(a) && Accepted(b)
    ensures ToLower(a) == ToLower(b) <==> IdOf(a) == IdOf(b)
    ensures Less(ToLower(a), ToLower(b)) <==> IdOf(a) < IdOf(b)
  {
    LoweredIsAccepted(a);
    LoweredIsAccepted(b);
    AcceptedShape(ToLower(a));
    AcceptedShape(ToLower(b));
    assert Aligned(ToLower(a), ToLower(b));
    AlignedOrder(ToLower(a), ToLower(b));
  }

  /** normalizeChatIDs: lowers the ids in place up to the first one it rejects. */
  method NormalizeChatIDs(ids: array<string>) returns (ok: bool, ghost done: nat)
    modifies ids
    ensures done <= ids.Length && (ok <==> done == ids.Length)
    ensures forall i | 0 <= i < done :: Accepted(old(ids[i])) && ids[i] == ToLower(old(ids[i]))
    ensures forall i | done <= i < ids.Length :: ids[i] == old(ids[i])
    ensures !ok ==> !Accepted(old(ids[done]))
  {
    done := 0;
    for n := 0 to ids.Length
      invariant done == n
      invariant forall i | 0 <= i < n :: Accepted(old(ids[i])) && ids[i] == ToLower(old(ids[i]))
      invariant forall i | n <= i < ids.Length :: ids[i] == old(ids[i])
    {
      var value := ids[n];
      if |value| != 36 || value[8] != '-' || value[13] != '-' || value[18] != '-' || value[23] != '-' {
        return false, n;
      }
      var compact := value[..8] + value[9..13] + value[14..18] + value[19..23] + value[24..];
      if !AllHex(compact) {
        return false, n;
      }
      ids[n] := ToLower(value);
      done := n + 1;
    }
    ok := true;
  }
}
