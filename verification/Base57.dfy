/**
 * The base57 codec of core/Utilities/StrFmt.cpp: 8 bytes, read as a big-endian number, become 11
 * digits; a shorter last group is padded with zero bytes and only its leading digits are kept.
 */
module Base57 {
  import opened Alignment
  import opened Positional

  type Byte = x: nat | x < 256

  const BASE := 57
  const GROUP := 8
  const DIGITS := 11

  function Min(x: nat, y: nat): nat {
    if x < y then x else y
  }

  // ----- The alphabet -----

  /** The d-th character of the alphabet; see LetterIsAt. */
  function Letter(d: nat): char
    requires d < BASE
  {
    if d < 10 then '0' + d as char
    else if d == 10 then 'A'
    else if d == 11 then 'C'
    else if d < 16 then 'E' + (d - 12) as char
    else if d < 21 then 'J' + (d - 16) as char
    else if d < 32 then 'P' + (d - 21) as char
    else if d < 43 then 'a' + (d - 32) as char
    else 'm' + (d - 43) as char
  }

  /** The lambda to_val of from_string; -1 stands for umax. */
  function CharValue(ch: char): int {
    var c := ch as int;
    if '0' <= ch <= '9' then c - '0' as int
    else if 'A' <= ch <= 'Z' then
      if ch == 'B' || ch == 'D' || ch == 'I' || ch == 'O' then -1
      else
        var s := if ch > 'O' then c - 4 else if ch > 'I' then c - 3
                 else if ch > 'D' then c - 2 else if ch > 'B' then c - 1 else c;
        s - 'A' as int + 10
    else if 'a' <= ch <= 'z' then
      if ch == 'l' then -1
      else
        var s := if ch > 'l' then c - 1 else c;
        s - 'a' as int + 10 + 22
    else -1
  }

  lemma LetterOfValue(ch: char)
    ensures -1 <= CharValue(ch) < BASE
    ensures CharValue(ch) != -1 ==> Letter(CharValue(ch)) == ch
  {
  }

  lemma ValueOfLetter(d: nat)
    requires d < BASE
    ensures CharValue(Letter(d)) == d
  {
  }

  /** The string that format indexes with a digit. */
  const ALPHABET: string := "0123456789ACEFGHJKLMNPQRSTUVWXYZabcdefghijkmnopqrstuvwxyz"

  /** Its digits and upper-case letters. */
  const UPPER: string := "0123456789ACEFGHJKLMNPQRSTUVWXYZ"

  lemma UpperLetters()
    ensures |UPPER| == 32 && forall d :: 0 <= d < 32 ==> UPPER[d] == Letter(d)
  {
  }

  lemma LowerLetters()
    ensures |ALPHABET| == BASE && forall d :: 0 <= d < 32 ==> ALPHABET[d] == UPPER[d]
    ensures forall d :: 32 <= d < BASE ==> ALPHABET[d] == Letter(d)
  {
  }

  /** The characters that are written are those of the alphabet. */
  lemma LetterIsAt(d: nat)
    requires d < BASE
    ensures |ALPHABET| == BASE && Letter(d) == ALPHABET[d]
  {
    UpperLetters();
    LowerLetters();
  }

  /** to_val gives the position of a character in the alphabet, and fails exactly for the others. */
  lemma ValueIsIndex(ch: char, d: nat)
    requires d < BASE
    ensures |ALPHABET| == BASE && (CharValue(ch) == d <==> ALPHABET[d] == ch)
    ensures CharValue(ch) == -1 <==> ch !in ALPHABET
  {
    LetterIsAt(d);
    LetterOfValue(ch);
    ValueOfLetter(d);
    if CharValue(ch) != -1 {
      LetterIsAt(CharValue(ch));
    } else if ch in ALPHABET {
      var k :| 0 <= k < |ALPHABET| && ALPHABET[k] == ch;
      LetterIsAt(k);
      ValueOfLetter(k);
    }
  }

  function Text(ds: seq<nat>): (s: string)
    requires AreDigits(BASE, ds)
    ensures |s| == |ds|
  {
    seq(|ds|, i requires 0 <= i < |ds| => Letter(ds[i]))
  }

  lemma TextInjective(a: seq<nat>, b: seq<nat>)
    requires AreDigits(BASE, a) && AreDigits(BASE, b) && Text(a) == Text(b)
    ensures a == b
  {
    assert |a| == |Text(a)| == |b|;
    forall i | 0 <= i < |a| ensures a[i] == b[i] {
      assert Text(a)[i] == Text(b)[i];
      ValueOfLetter(a[i]);
      ValueOfLetter(b[i]);
    }
  }

  // ----- Encoding -----

  /** s_tail: 0, 2, 3, 5, 6, 7, 9, 10 */
  function Tail(n: nat): nat
    requires n < GROUP
  {
    if n == 0 then 0 else if n <= 2 then n + 1 else if n <= 5 then n + 2 else n + 3
  }

  function EncodedSize(n: nat): nat {
    n / GROUP * DIGITS + Tail(n % GROUP)
  }

  function Padded(bytes: seq<Byte>): (r: seq<Byte>)
    requires |bytes| <= GROUP
    ensures |r| == GROUP
  {
    bytes + seq(GROUP - |bytes|, _ => 0)
  }

  function GroupDigits(bytes: seq<Byte>): (ds: seq<nat>)
    requires |bytes| <= GROUP
    ensures |ds| == DIGITS && AreDigits(BASE, ds)
  {
    DigitsAreDigits(BASE, Value(256, Padded(bytes)), DIGITS);
    Digits(BASE, Value(256, Padded(bytes)), DIGITS)
  }

  function Encode(data: seq<Byte>): string {
    if |data| >= GROUP then Text(GroupDigits(data[..GROUP])) + Encode(data[GROUP..])
    else Text(GroupDigits(data))[..Tail(|data|)]
  }

  lemma SizeStep(n: nat)
    ensures n >= GROUP ==> EncodedSize(n) == DIGITS + EncodedSize(n - GROUP)
    ensures n < GROUP ==> EncodedSize(n) == Tail(n) < DIGITS
  {
    if n >= GROUP {
      assert n / GROUP == (n - GROUP) / GROUP + 1 && n % GROUP == (n - GROUP) % GROUP;
    }
  }

  lemma {:induction false} EncodeLength(data: seq<Byte>)
    ensures |Encode(data)| == EncodedSize(|data|)
  {
    SizeStep(|data|);
    if |data| >= GROUP {
      EncodeLength(data[GROUP..]);
      assert |Text(GroupDigits(data[..GROUP]))| == DIGITS;
    } else {
      assert |Text(GroupDigits(data))| == DIGITS;
    }
  }

  /** A longer input has a longer encoding. */
  lemma SizeGrows(m: nat, n: nat)
    requires m < n
    ensures EncodedSize(m) < EncodedSize(n)
  {
  }

  // ----- Injectivity -----

  /** 57^11 exceeds every 8-byte number, so a full group loses nothing. */
  lemma GroupFits(bytes: seq<Byte>)
    requires |bytes| <= GROUP
    ensures Value(256, Padded(bytes)) < Pow(256, GROUP) == TWO64 < Pow(BASE, DIGITS)
  {
    ValueBound(256, Padded(bytes));
    Powers();
  }

  lemma Powers()
    ensures Pow(256, GROUP) == TWO64 < Pow(BASE, DIGITS)
    ensures Pow(BASE, 1) <= Pow(256, 1) && Pow(BASE, 2) <= Pow(256, 2) && Pow(BASE, 4) <= Pow(256, 3)
    ensures Pow(BASE, 5) <= Pow(256, 4) && Pow(BASE, 6) <= Pow(256, 5) && Pow(BASE, 8) <= Pow(256, 6)
    ensures Pow(BASE, 9) <= Pow(256, 7) && Pow(BASE, 10) < TWO64
  {
    assert Pow(256, 1) == 256 && Pow(256, 2) == 0x1_0000 && Pow(256, 3) == 0x100_0000;
    assert Pow(256, 4) == 0x1_0000_0000 && Pow(256, 5) == 0x100_0000_0000 && Pow(256, 6) == 0x1_0000_0000_0000;
    assert Pow(256, 7) == 0x100_0000_0000_0000;
    assert Pow(BASE, 1) == 57 && Pow(BASE, 2) == 3249 && Pow(BASE, 3) == 185193 && Pow(BASE, 4) == 10556001;
    assert Pow(BASE, 5) == 601692057 && Pow(BASE, 6) == 34296447249 && Pow(BASE, 7) == 1954897493193;
    assert Pow(BASE, 8) == 111429157112001 && Pow(BASE, 9) == 6351461955384057;
    assert Pow(BASE, 10) == 362033331456891249;
  }

  /** The digits kept of a group of n bytes separate any two such groups. */
  lemma TailSuffices(n: nat)
    requires 0 < n < GROUP
    ensures Pow(BASE, DIGITS - Tail(n)) <= Pow(256, GROUP - n)
  {
    Powers();
  }

  /** Padding n bytes multiplies their number by a power of 256. */
  lemma {:induction false} PaddedValue(bytes: seq<Byte>, k: nat)
    requires |bytes| + k <= GROUP
    ensures Value(256, bytes + seq(k, _ => 0)) == Value(256, bytes) * Pow(256, k)
    decreases k
  {
    var zeros: seq<nat> := seq(k, _ => 0);
    var whole: seq<nat> := bytes + zeros;
    if k == 0 {
      assert whole == bytes;
    } else {
      var fewer: seq<nat> := seq(k - 1, _ => 0);
      PaddedValue(bytes, k - 1);
      assert whole[..|whole| - 1] == bytes + fewer;
      assert whole[|whole| - 1] == 0;
      assert Value(256, bytes) * Pow(256, k - 1) * 256 == Value(256, bytes) * Pow(256, k);
    }
  }

  /** Equal numbers of equally many bytes come from equal bytes. */
  lemma ValueInjective(a: seq<Byte>, b: seq<Byte>)
    requires |a| == |b| && Value(256, a) == Value(256, b)
    ensures a == b
  {
    DigitsOfValue(256, a);
    DigitsOfValue(256, b);
  }

  lemma FullGroupInjective(a: seq<Byte>, b: seq<Byte>)
    requires |a| == |b| == GROUP && Text(GroupDigits(a)) == Text(GroupDigits(b))
    ensures a == b
  {
    TextInjective(GroupDigits(a), GroupDigits(b));
    GroupFits(a);
    GroupFits(b);
    ValueOfDigits(BASE, Value(256, Padded(a)), DIGITS);
    ValueOfDigits(BASE, Value(256, Padded(b)), DIGITS);
    assert Padded(a) == a && Padded(b) == b;
    ValueInjective(a, b);
  }

  /** Two multiples of q that agree after dividing by some p <= q are equal. */
  lemma CloseMultiples(x: nat, y: nat, p: nat, q: nat, d: nat)
    requires 0 < p <= q && d * p <= x * q < (d + 1) * p && d * p <= y * q < (d + 1) * p
    ensures x == y
  {
    assert (d + 1) * p == d * p + p;
    assert (x - y) * q == x * q - y * q;
    Magnitude(x - y, q);
  }

  /** Equal kept digits mean equal numbers after dropping the others. */
  lemma SameLeading(a: seq<Byte>, b: seq<Byte>, s: nat)
    requires |a| <= GROUP && |b| <= GROUP && s <= DIGITS
    requires Text(GroupDigits(a))[..s] == Text(GroupDigits(b))[..s]
    ensures Without(BASE, Value(256, Padded(a)), DIGITS - s) == Without(BASE, Value(256, Padded(b)), DIGITS - s)
  {
    var v, w := Value(256, Padded(a)), Value(256, Padded(b));
    LeadingText(a, s);
    LeadingText(b, s);
    TextInjective(Digits(BASE, Without(BASE, v, DIGITS - s), s), Digits(BASE, Without(BASE, w, DIGITS - s), s));
    GroupFits(a);
    GroupFits(b);
    SameWithout(v, w, s);
  }

  /** The number of a padded group, between the bounds its kept digits give. */
  lemma TailBounds(a: seq<Byte>, s: nat, d: nat, p: nat, q: nat)
    requires |a| <= GROUP && s <= DIGITS && d == Without(BASE, Value(256, Padded(a)), DIGITS - s)
    requires p == Pow(BASE, DIGITS - s) && q == Pow(256, GROUP - |a|)
    ensures d * p <= Value(256, a) * q < (d + 1) * p
  {
    WithoutBounds(BASE, Value(256, Padded(a)), DIGITS - s);
    PaddedValue(a, GROUP - |a|);
  }

  lemma KeptDigitsValue(a: seq<Byte>, b: seq<Byte>, s: nat, p: nat, q: nat)
    requires |a| == |b| <= GROUP && s <= DIGITS
    requires p == Pow(BASE, DIGITS - s) && q == Pow(256, GROUP - |a|) && 0 < p <= q
    requires Without(BASE, Value(256, Padded(a)), DIGITS - s) == Without(BASE, Value(256, Padded(b)), DIGITS - s)
    ensures Value(256, a) == Value(256, b)
  {
    var d := Without(BASE, Value(256, Padded(a)), DIGITS - s);
    TailBounds(a, s, d, p, q);
    TailBounds(b, s, d, p, q);
    CloseMultiples(Value(256, a), Value(256, b), p, q, d);
  }

  /** A group whose kept digits suffice is determined by them. */
  lemma KeptDigitsDetermine(a: seq<Byte>, b: seq<Byte>, s: nat, p: nat, q: nat)
    requires |a| == |b| <= GROUP && s <= DIGITS
    requires p == Pow(BASE, DIGITS - s) && q == Pow(256, GROUP - |a|) && 0 < p <= q
    requires Text(GroupDigits(a))[..s] == Text(GroupDigits(b))[..s]
    ensures a == b
  {
    SameLeading(a, b, s);
    KeptDigitsValue(a, b, s, p, q);
    ValueInjective(a, b);
  }

  lemma TailPowers(n: nat, s: nat, p: nat, q: nat)
    requires 0 < n < GROUP && s == Tail(n) <= DIGITS && p == Pow(BASE, DIGITS - s) && q == Pow(256, GROUP - n)
    ensures 0 < p <= q
  {
    TailSuffices(n);
    PowPositive(BASE, DIGITS - s);
  }

  lemma TailGroupInjective(a: seq<Byte>, b: seq<Byte>, s: nat, p: nat, q: nat)
    requires 0 < |a| == |b| < GROUP && s == Tail(|a|) <= DIGITS
    requires p == Pow(BASE, DIGITS - s) && q == Pow(256, GROUP - |a|)
    requires Text(GroupDigits(a))[..s] == Text(GroupDigits(b))[..s]
    ensures a == b
  {
    TailPowers(|a|, s, p, q);
    KeptDigitsDetermine(a, b, s, p, q);
  }

  lemma LeadingText(a: seq<Byte>, s: nat)
    requires |a| <= GROUP && s <= DIGITS
    ensures var top := Digits(BASE, Without(BASE, Value(256, Padded(a)), DIGITS - s), s);
            AreDigits(BASE, top) && Text(GroupDigits(a))[..s] == Text(top)
  {
    var v := Value(256, Padded(a));
    LeadingDigits(BASE, v, DIGITS, s);
    TextPrefix(GroupDigits(a), s);
  }

  lemma TextPrefix(ds: seq<nat>, s: nat)
    requires AreDigits(BASE, ds) && s <= |ds|
    ensures AreDigits(BASE, ds[..s]) && Text(ds)[..s] == Text(ds[..s])
  {
  }

  /** Numbers below 57^11 with the same leading s digits agree without the others. */
  lemma SameWithout(v: nat, w: nat, s: nat)
    requires s <= DIGITS && v < Pow(BASE, DIGITS) && w < Pow(BASE, DIGITS)
    requires Digits(BASE, Without(BASE, v, DIGITS - s), s) == Digits(BASE, Without(BASE, w, DIGITS - s), s)
    ensures Without(BASE, v, DIGITS - s) == Without(BASE, w, DIGITS - s)
  {
    WithoutBelow(v, DIGITS, DIGITS - s);
    WithoutBelow(w, DIGITS, DIGITS - s);
    ValueOfDigits(BASE, Without(BASE, v, DIGITS - s), s);
    ValueOfDigits(BASE, Without(BASE, w, DIGITS - s), s);
  }

  lemma {:induction false} WithoutBelow(v: nat, n: nat, k: nat)
    requires k <= n && v < Pow(BASE, n)
    ensures Without(BASE, v, k) < Pow(BASE, n - k)
    decreases k
  {
    if k > 0 {
      WithoutBelow(v / BASE, n - 1, k - 1);
    }
  }

  /** Base57 loses nothing: different byte strings, of whatever lengths, have different encodings. */
  lemma {:induction false} EncodeInjective(a: seq<Byte>, b: seq<Byte>)
    requires Encode(a) == Encode(b)
    ensures a == b
    decreases |a|
  {
    EncodeLength(a);
    EncodeLength(b);
    if |a| < |b| {
      SizeGrows(|a|, |b|);
    } else if |b| < |a| {
      SizeGrows(|b|, |a|);
    } else if |a| >= GROUP {
      var x, y := Text(GroupDigits(a[..GROUP])), Text(GroupDigits(b[..GROUP]));
      assert x == Encode(a)[..DIGITS] && y == Encode(b)[..DIGITS];
      assert Encode(a[GROUP..]) == Encode(a)[DIGITS..] && Encode(b[GROUP..]) == Encode(b)[DIGITS..];
      FullGroupInjective(a[..GROUP], b[..GROUP]);
      EncodeInjective(a[GROUP..], b[GROUP..]);
      assert a == a[..GROUP] + a[GROUP..] && b == b[..GROUP] + b[GROUP..];
    } else if |a| > 0 {
      TailGroupInjective(a, b, Tail(|a|), Pow(BASE, DIGITS - Tail(|a|)), Pow(256, GROUP - |a|));
    }
  }

  // ----- Decoding -----

  datatype Option<T> = None | Some(value: T)

  ghost predicate AllLetters(s: string) {
    forall i :: 0 <= i < |s| ==> CharValue(s[i]) != -1
  }

  /** The digits of a group of at most 11 characters; missing low digits count as 0. */
  function CharDigits(group: string): (ds: seq<nat>)
    requires |group| <= DIGITS && AllLetters(group)
    ensures |ds| == DIGITS && AreDigits(BASE, ds)
  {
    seq(DIGITS, i requires 0 <= i < DIGITS =>
      if i < |group| then LetterOfValue(group[i]); CharValue(group[i]) as nat else 0)
  }

  /** A group is accepted: no foreign character, and its number fits 64 bits. */
  ghost predicate GroupOk(group: string)
    requires |group| <= DIGITS
  {
    AllLetters(group) && Value(BASE, CharDigits(group)) < TWO64
  }

  function GroupBytes(v: nat): (r: seq<Byte>)
    ensures |r| == GROUP
  {
    DigitsAreDigits(256, v, GROUP);
    var ds := Digits(256, v, GROUP);
    seq(GROUP, i requires 0 <= i < GROUP => ds[i] as Byte)
  }

  /** Each group, the last one possibly short, becomes 8 bytes; one bad group spoils everything. */
  ghost function DecodeGroups(str: string): Option<seq<Byte>> {
    if str == "" then Some([])
    else
      var n := Min(|str|, DIGITS);
      if !GroupOk(str[..n]) then None
      else match DecodeGroups(str[n..])
           case None => None
           case Some(rest) => Some(GroupBytes(Value(BASE, CharDigits(str[..n]))) + rest)
  }

  /** from_string: the empty result stands for failure. */
  ghost function Decode(str: string): seq<Byte> {
    match DecodeGroups(str)
    case None => []
    case Some(bytes) => bytes
  }

  /** The k-th group of a string. */
  function GroupAt(str: string, k: nat): (g: string)
    requires k * DIGITS < |str|
    ensures |g| <= DIGITS
  {
    str[k * DIGITS..Min(k * DIGITS + DIGITS, |str|)]
  }

  /** The groups of the rest are the groups of the string, one later. */
  lemma GroupShift(str: string, k: nat)
    requires |str| >= DIGITS && k * DIGITS < |str[DIGITS..]|
    ensures GroupAt(str[DIGITS..], k) == GroupAt(str, k + 1)
  {
  }

  ghost predicate BadGroup(str: string, k: nat) {
    k * DIGITS < |str| && !GroupOk(GroupAt(str, k))
  }

  /**
   * A string is rejected exactly when one of its groups holds a foreign character or denotes a
   * number of at least 2^64.
   */
  lemma {:induction false} RejectedIff(str: string)
    ensures DecodeGroups(str).None? <==> exists k: nat :: BadGroup(str, k)
    decreases |str|
  {
    if str != "" {
      var n := Min(|str|, DIGITS);
      var rest := str[n..];
      RejectedIff(rest);
      assert GroupAt(str, 0) == str[..n];
      assert BadGroup(str, 0) <==> !GroupOk(str[..n]);
      forall k: nat | BadGroup(rest, k) ensures BadGroup(str, k + 1) {
        GroupShift(str, k);
      }
      forall k: nat | 0 < k && BadGroup(str, k) ensures BadGroup(rest, k - 1) {
        GroupShift(str, k - 1);
      }
    }
  }

  /** An accepted string gives 8 bytes for each group, also for a short last group. */
  lemma {:induction false} DecodedSize(str: string)
    requires DecodeGroups(str).Some?
    ensures |Decode(str)| == (|str| + DIGITS - 1) / DIGITS * GROUP
    decreases |str|
  {
    if str != "" {
      DecodedSize(str[Min(|str|, DIGITS)..]);
    }
  }

  // ----- Round trips -----

  lemma BytesOfValue(bytes: seq<Byte>)
    requires |bytes| == GROUP
    ensures GroupBytes(Value(256, bytes)) == bytes
  {
    DigitsOfValue(256, bytes);
  }

  lemma ValueOfBytes(v: nat)
    requires v < TWO64
    ensures Value(256, GroupBytes(v)) == v
  {
    Powers();
    ValueOfDigits(256, v, GROUP);
    assert GroupBytes(v) == Digits(256, v, GROUP);
  }

  /** The digits written for a full group are read back. */
  lemma TextReadsBack(bytes: seq<Byte>)
    requires |bytes| == GROUP
    ensures GroupOk(Text(GroupDigits(bytes)))
    ensures CharDigits(Text(GroupDigits(bytes))) == GroupDigits(bytes)
    ensures Value(BASE, GroupDigits(bytes)) == Value(256, bytes)
  {
    DigitsOfText(GroupDigits(bytes));
    assert Padded(bytes) == bytes;
    GroupFits(bytes);
    ValueOfDigits(BASE, Value(256, bytes), DIGITS);
  }

  lemma DigitsOfText(ds: seq<nat>)
    requires |ds| == DIGITS && AreDigits(BASE, ds)
    ensures AllLetters(Text(ds)) && CharDigits(Text(ds)) == ds
  {
    forall i | 0 <= i < DIGITS ensures CharValue(Text(ds)[i]) == ds[i] {
      ValueOfLetter(ds[i]);
    }
  }

  /** Decoding an encoding returns the bytes, for inputs made of full groups. */
  lemma {:induction false} DecodeOfEncode(data: seq<Byte>)
    requires |data| % GROUP == 0
    ensures DecodeGroups(Encode(data)) == Some(data)
    decreases |data|
  {
    if data != [] {
      var first, rest := data[..GROUP], data[GROUP..];
      DecodeOfEncode(rest);
      TextReadsBack(first);
      BytesOfValue(first);
      DecodeFull(Text(GroupDigits(first)), Encode(rest), first, rest);
      assert data == first + rest;
    }
  }

  lemma EncodeFull(bytes: seq<Byte>, rest: seq<Byte>)
    requires |bytes| == GROUP
    ensures Encode(bytes + rest) == Text(GroupDigits(bytes)) + Encode(rest)
  {
    var data := bytes + rest;
    assert data[..GROUP] == bytes && data[GROUP..] == rest;
  }

  lemma DecodeFull(group: string, after: string, first: seq<Byte>, rest: seq<Byte>)
    requires |group| == DIGITS && GroupOk(group) && GroupBytes(Value(BASE, CharDigits(group))) == first
    requires DecodeGroups(after) == Some(rest)
    ensures DecodeGroups(group + after) == Some(first + rest)
  {
    var str := group + after;
    assert str[..DIGITS] == group && str[DIGITS..] == after;
  }

  /** The characters of an accepted full group are written again. */
  lemma GroupWritesBack(group: string)
    requires |group| == DIGITS && GroupOk(group)
    ensures var bytes := GroupBytes(Value(BASE, CharDigits(group)));
            Text(GroupDigits(bytes)) == group
  {
    var ds := CharDigits(group);
    var bytes := GroupBytes(Value(BASE, ds));
    ValueOfBytes(Value(BASE, ds));
    assert Padded(bytes) == bytes;
    DigitsOfValue(BASE, ds);
    assert GroupDigits(bytes) == ds;
    forall i | 0 <= i < DIGITS ensures Text(ds)[i] == group[i] {
      LetterOfValue(group[i]);
    }
  }

  lemma OneGroupBack(str: string, group: string, rest: string, bytes: seq<Byte>, more: seq<Byte>, data: seq<Byte>)
    requires |str| >= DIGITS && group == str[..DIGITS] && rest == str[DIGITS..] && |bytes| == GROUP
    requires Text(GroupDigits(bytes)) == group && Encode(more) == rest && data == bytes + more
    ensures Encode(data) == str
  {
    EncodeFull(bytes, more);
    assert str == group + rest;
  }

  lemma DecodeSplit(str: string, group: string, rest: string, data: seq<Byte>)
    returns (bytes: seq<Byte>, more: seq<Byte>)
    requires |str| >= DIGITS && group == str[..DIGITS] && rest == str[DIGITS..] && DecodeGroups(str) == Some(data)
    ensures GroupOk(group) && bytes == GroupBytes(Value(BASE, CharDigits(group)))
    ensures DecodeGroups(rest) == Some(more) && data == bytes + more
  {
    bytes, more := GroupBytes(Value(BASE, CharDigits(group))), DecodeGroups(rest).value;
  }

  lemma {:induction false} EncodeOfDecoded(str: string, data: seq<Byte>)
    requires |str| % DIGITS == 0 && DecodeGroups(str) == Some(data)
    ensures Encode(data) == str
    decreases |str|
  {
    if str != "" {
      OneGroupLess(|str|);
      var group, rest := str[..DIGITS], str[DIGITS..];
      var bytes, more := DecodeSplit(str, group, rest, data);
      EncodeOfDecoded(rest, more);
      GroupWritesBack(group);
      OneGroupBack(str, group, rest, bytes, more, data);
    } else {
      EncodeNothing();
    }
  }

  lemma OneGroupLess(n: nat)
    requires 0 < n && n % DIGITS == 0
    ensures DIGITS <= n && (n - DIGITS) % DIGITS == 0
  {
  }

  lemma EncodeNothing()
    ensures Encode([]) == ""
  {
    assert Text(GroupDigits([]))[..0] == "";
  }

  /** Encoding a decoding returns the string, for accepted strings made of full groups. */
  lemma EncodeOfDecode(str: string)
    requires |str| % DIGITS == 0 && DecodeGroups(str).Some?
    ensures Encode(Decode(str)) == str
  {
    EncodeOfDecoded(str, Decode(str));
  }

  // ----- The loops of the source -----

  /** Where the characters of a group come to lie. */
  lemma {:induction false} EncodeAt(
    data: seq<Byte>, text: string, g: nat, at: nat, q: nat, j: nat, part: seq<Byte>, group: string)
    requires text == Encode(data) && at == g * GROUP < |data| && j < DIGITS && q == g * DIGITS + j < |text|
    requires part == data[at..Min(at + GROUP, |data|)] && group == Text(GroupDigits(part))
    ensures text[q] == group[j]
    decreases g
  {
    if g == 0 {
      FirstGroupAt(data, j, part);
    } else {
      var rest := data[GROUP..];
      PartOfRest(data, rest, at - GROUP, part);
      LaterGroups(data, rest, text, Encode(rest), q - DIGITS);
      EncodeAt(rest, Encode(rest), g - 1, at - GROUP, q - DIGITS, j, part, group);
    }
  }

  lemma PartOfRest(data: seq<Byte>, rest: seq<Byte>, at: nat, part: seq<Byte>)
    requires at + GROUP < |data| && rest == data[GROUP..]
    requires part == data[at + GROUP..Min(at + GROUP + GROUP, |data|)]
    ensures part == rest[at..Min(at + GROUP, |rest|)]
  {
    var want := rest[at..Min(at + GROUP, |rest|)];
    assert |part| == |want| && forall i :: 0 <= i < |part| ==> part[i] == data[at + GROUP + i] == want[i];
  }

  lemma FirstGroupAt(data: seq<Byte>, j: nat, part: seq<Byte>)
    requires 0 < |data| && j < DIGITS && j < |Encode(data)|
    requires part == data[..Min(GROUP, |data|)]
    ensures Encode(data)[j] == Text(GroupDigits(part))[j]
  {
    if |data| < GROUP {
      assert part == data;
    }
  }

  lemma LaterGroups(data: seq<Byte>, rest: seq<Byte>, text: string, later: string, at: nat)
    requires |data| >= GROUP && rest == data[GROUP..] && text == Encode(data) && later == Encode(rest)
    ensures |text| == DIGITS + |later|
    ensures at < |later| ==> text[DIGITS + at] == later[at]
  {
    assert |Text(GroupDigits(data[..GROUP]))| == DIGITS;
  }

  /** The digits of v, most significant first, as letters. */
  ghost predicate Spells(text: string, v: nat) {
    |text| == DIGITS && forall j :: 0 <= j < DIGITS ==> text[j] == Letter(Without(BASE, v, DIGITS - 1 - j) % BASE)
  }

  lemma GroupSpells(bytes: seq<Byte>)
    requires |bytes| <= GROUP
    ensures Spells(Text(GroupDigits(bytes)), Value(256, Padded(bytes)))
  {
    var v, text := Value(256, Padded(bytes)), Text(GroupDigits(bytes));
    forall j | 0 <= j < DIGITS
      ensures text[j] == Letter(Without(BASE, v, DIGITS - 1 - j) % BASE)
    {
      DigitAt(BASE, v, DIGITS, DIGITS - 1 - j);
    }
  }

  /** The bytes of group g, padded with zeros, as a big-endian number. */
  function NumberAt(data: seq<Byte>, g: nat): nat
    requires g * GROUP < |data|
  {
    Value(256, Padded(data[g * GROUP..Min(g * GROUP + GROUP, |data|)]))
  }

  /** The character for position j of a group with the number v. */
  ghost predicate IsDigitOf(ch: char, v: nat, j: nat) {
    && j < DIGITS && |ALPHABET| == BASE && 0 < Pow(BASE, DIGITS - 1 - j)
    && ch == ALPHABET[v / Pow(BASE, DIGITS - 1 - j) % BASE]
  }

  lemma LetterIsDigit(v: nat, j: nat, d: nat)
    requires j < DIGITS && d == Without(BASE, v, DIGITS - 1 - j) % BASE
    ensures IsDigitOf(Letter(d), v, j)
  {
    WithoutIsQuotient(BASE, v, DIGITS - 1 - j);
    LetterIsAt(d);
  }

  /**
   * What format writes: the character at position j of group g is the alphabet's character for the
   * digit of weight 57^(10 - j) of the group's number.
   */
  lemma EncodedChar(data: seq<Byte>, g: nat, j: nat)
    requires g * GROUP < |data| && j < DIGITS && g * DIGITS + j < |Encode(data)|
    ensures IsDigitOf(Encode(data)[g * DIGITS + j], NumberAt(data, g), j)
  {
    var at := g * GROUP;
    var part := data[at..Min(at + GROUP, |data|)];
    EncodeAt(data, Encode(data), g, at, g * DIGITS + j, j, part, Text(GroupDigits(part)));
    GroupSpells(part);
    LetterIsDigit(NumberAt(data, g), j, Without(BASE, NumberAt(data, g), DIGITS - 1 - j) % BASE);
  }

  /** The digits of a group are the positions of its characters in the alphabet. */
  lemma DigitIsIndex(group: string, i: nat)
    requires i < |group| <= DIGITS && AllLetters(group)
    ensures CharDigits(group)[i] < |ALPHABET| && ALPHABET[CharDigits(group)[i]] == group[i]
  {
    LetterOfValue(group[i]);
    ValueIsIndex(group[i], CharDigits(group)[i]);
  }

  /** What from_string returns: byte i of group g is the byte of weight 256^(7 - i) of the group's number. */
  lemma {:induction false} DecodedByte(str: string, g: nat, i: nat, bytes: seq<Byte>, group: string)
    requires DecodeGroups(str) == Some(bytes) && g * DIGITS < |str| && i < GROUP && group == GroupAt(str, g)
    ensures g * GROUP + i < |bytes| && AllLetters(group) && 0 < Pow(256, GROUP - 1 - i)
    ensures bytes[g * GROUP + i] == Value(BASE, CharDigits(group)) / Pow(256, GROUP - 1 - i) % 256
    decreases g
  {
    var n := Min(|str|, DIGITS);
    var rest := DecodeGroups(str[n..]);
    if g == 0 {
      assert group == str[..n];
      ByteOfNumber(Value(BASE, CharDigits(group)), i);
    } else {
      GroupShift(str, g - 1);
      DecodedByte(str[n..], g - 1, i, rest.value, group);
    }
  }

  lemma ByteOfNumber(v: nat, i: nat)
    requires i < GROUP
    ensures 0 < Pow(256, GROUP - 1 - i) && GroupBytes(v)[i] == v / Pow(256, GROUP - 1 - i) % 256
  {
    DigitAt(256, v, GROUP, GROUP - 1 - i);
    WithoutIsQuotient(256, v, GROUP - 1 - i);
  }

  /** The k-th byte of the decoding, told from the characters. */
  ghost predicate Decodes(str: string, byte: Byte, k: nat) {
    && k / GROUP * DIGITS < |str| && AllLetters(GroupAt(str, k / GROUP)) && 0 < Pow(256, GROUP - 1 - k % GROUP)
    && byte == Value(BASE, CharDigits(GroupAt(str, k / GROUP))) / Pow(256, GROUP - 1 - k % GROUP) % 256
  }

  lemma DecodedAll(str: string, bytes: seq<Byte>, k: nat)
    requires DecodeGroups(str) == Some(bytes) && k < |bytes|
    ensures Decodes(str, bytes[k], k)
  {
    DecodedSize(str);
    GroupExists(|str|, k, k / GROUP, k % GROUP);
    DecodedByte(str, k / GROUP, k % GROUP, bytes, GroupAt(str, k / GROUP));
  }

  lemma GroupExists(n: nat, k: nat, g: nat, i: nat)
    requires k < (n + DIGITS - 1) / DIGITS * GROUP && g == k / GROUP && i == k % GROUP
    ensures g * DIGITS < n && k == g * GROUP + i
  {
  }

  /** The inner loop: digits from the lowest one, those inside the output only. */
  method WriteDigits(ptr: array<char>, p: nat, v: nat, ghost text: string)
    requires p < ptr.Length && Spells(text, v)
    modifies ptr
    ensures forall q :: 0 <= q < p ==> ptr[q] == old(ptr[q])
    ensures forall j :: 0 <= j < DIGITS && p + j < ptr.Length ==> ptr[p + j] == text[j]
  {
    var value := v;
    var j := DIGITS - 1;
    while j >= 0
      invariant -1 <= j < DIGITS && value == Without(BASE, v, DIGITS - 1 - j)
      invariant forall q :: 0 <= q < p ==> ptr[q] == old(ptr[q])
      invariant forall i :: j < i < DIGITS && p + i < ptr.Length ==> ptr[p + i] == text[i]
    {
      WithoutOneMore(BASE, v, DIGITS - 1 - j);
      if p + j < ptr.Length {
        ptr[p + j] := Letter(value % BASE);
      }
      value := value / BASE;
      j := j - 1;
    }
  }

  /** One group: its bytes as a big-endian number, and the digits of that number. */
  method WriteGroup(ptr: array<char>, p: nat, bytes: seq<Byte>, ghost group: string)
    requires |bytes| <= GROUP && p < ptr.Length && group == Text(GroupDigits(bytes))
    modifies ptr
    ensures forall q :: 0 <= q < p ==> ptr[q] == old(ptr[q])
    ensures forall j :: 0 <= j < DIGITS && p + j < ptr.Length ==> ptr[p + j] == group[j]
  {
    GroupSpells(bytes);
    WriteDigits(ptr, p, Value(256, Padded(bytes)), group);
  }

  /** One group of format, its bytes at i and its characters at p. */
  method FormatGroup(ptr: array<char>, data: seq<Byte>, ghost text: string, ghost g: nat, i: nat, p: nat)
    requires text == Encode(data) && i == g * GROUP < |data| && p == g * DIGITS < ptr.Length == |text|
    requires forall q :: 0 <= q < p ==> ptr[q] == text[q]
    modifies ptr
    ensures forall q :: 0 <= q < p + DIGITS && q < ptr.Length ==> ptr[q] == text[q]
  {
    var part := data[i..Min(i + GROUP, |data|)];
    ghost var group := Text(GroupDigits(part));
    WriteGroup(ptr, p, part, group);
    forall q | p <= q < p + DIGITS && q < ptr.Length ensures ptr[q] == text[q] {
      EncodeAt(data, text, g, i, q, q - p, part, group);
      assert ptr[p + (q - p)] == group[q - p];
    }
  }

  /** format: appends the encoding to out. */
  method Format(out: string, data: seq<Byte>) returns (r: string)
    ensures r == out + Encode(data) && |r| == |out| + EncodedSize(|data|)
    ensures forall q :: |out| <= q < |r| ==> Encodes(data, r[q], q - |out|)
  {
    EncodeLength(data);
    var more := FormatAll(data);
    r := out + more;
    forall q | |out| <= q < |r|
      ensures Encodes(data, r[q], q - |out|)
    {
      EncodedText(data, q - |out|);
    }
  }

  method FormatAll(data: seq<Byte>) returns (r: string)
    ensures r == Encode(data)
  {
    ghost var text := Encode(data);
    EncodeLength(data);
    if data == [] {
      return "";
    }
    var size := |data| / GROUP * DIGITS + Tail(|data| % GROUP);
    var ptr := new char[size];
    var g := 0;
    while g * GROUP < |data|
      invariant ptr.Length == size && g * GROUP <= |data| + GROUP
      invariant forall q :: 0 <= q < g * DIGITS && q < size ==> ptr[q] == text[q]
      decreases |data| - g * GROUP
    {
      GroupStarts(|data|, g);
      FormatGroup(ptr, data, text, g, g * GROUP, g * DIGITS);
      g := g + 1;
    }
    GroupsCover(|data|, g);
    assert ptr[..] == text;
    r := ptr[..];
  }

  lemma GroupStarts(n: nat, g: nat)
    requires g * GROUP < n
    ensures g * DIGITS < EncodedSize(n)
  {
  }

  /** The k-th character of the encoding, told from the bytes. */
  ghost predicate Encodes(data: seq<Byte>, ch: char, k: nat) {
    k / DIGITS * GROUP < |data| && IsDigitOf(ch, NumberAt(data, k / DIGITS), k % DIGITS)
  }

  lemma EncodedText(data: seq<Byte>, k: nat)
    requires k < |Encode(data)|
    ensures Encodes(data, Encode(data)[k], k)
  {
    var g, j := k / DIGITS, k % DIGITS;
    assert k == g * DIGITS + j;
    EncodeLength(data);
    if |data| <= g * GROUP {
      GroupsCover(|data|, g);
    }
    EncodedChar(data, g, j);
  }

  lemma GroupsCover(n: nat, g: nat)
    requires n <= g * GROUP
    ensures EncodedSize(n) <= g * DIGITS
  {
  }

  /** The number of the digits from position j on, foreign characters counted as 0. */
  function Low(group: string, j: nat): nat
    decreases DIGITS - j
  {
    if j >= DIGITS then 0
    else (if j < |group| && CharValue(group[j]) > 0 then CharValue(group[j]) else 0) * Pow(BASE, DIGITS - 1 - j)
         + Low(group, j + 1)
  }

  lemma {:induction false} LowIsValue(group: string, j: nat)
    requires |group| <= DIGITS && AllLetters(group) && j <= DIGITS
    ensures Low(group, j) == Value(BASE, CharDigits(group)[j..])
    decreases DIGITS - j
  {
    var ds := CharDigits(group);
    if j < DIGITS {
      LowIsValue(group, j + 1);
      assert ds[j..] == [ds[j]] + ds[j + 1..];
      ValueCons(BASE, ds[j], ds[j + 1..]);
      if j < |group| {
        LetterOfValue(group[j]);
      }
    }
  }

  lemma {:induction false} LowGrows(group: string, j: nat)
    ensures Low(group, j) <= Low(group, 0)
    decreases j
  {
    if j > 0 {
      LowGrows(group, j - 1);
      LowStep(group, j - 1);
    }
  }

  lemma LowStep(group: string, j: nat)
    ensures Low(group, j + 1) <= Low(group, j)
  {
    if j < DIGITS {
      var d := if j < |group| && CharValue(group[j]) > 0 then CharValue(group[j]) else 0;
      NonNegative(d, Pow(BASE, DIGITS - 1 - j));
    }
  }

  lemma NonNegative(x: nat, y: nat)
    ensures 0 <= x * y
  {
  }

  /** A group whose digits from j on already exceed 64 bits, or with a foreign character, is bad. */
  lemma GroupFails(group: string, j: nat)
    requires |group| <= DIGITS && j <= DIGITS
    requires TWO64 <= Low(group, j) || (j < |group| && CharValue(group[j]) == -1)
    ensures !GroupOk(group)
  {
    if AllLetters(group) {
      LowGrows(group, j);
      LowIsValue(group, 0);
      assert CharDigits(group)[0..] == CharDigits(group);
    }
  }

  lemma GroupPasses(group: string)
    requires |group| <= DIGITS && AllLetters(group) && Low(group, 0) < TWO64
    ensures GroupOk(group) && Low(group, 0) == Value(BASE, CharDigits(group))
  {
    LowIsValue(group, 0);
    assert CharDigits(group)[0..] == CharDigits(group);
  }

  /** The overflow test of the source on 64-bit numbers. */
  lemma OverflowTest(res: nat, multiplier: nat, value: nat)
    requires 0 < multiplier && value < TWO64
    ensures (TWO64 - 1) / multiplier < res || TWO64 - 1 - value < res * multiplier
       <==> TWO64 <= res * multiplier + value
  {
    var q := (TWO64 - 1) / multiplier;
    assert TWO64 - 1 == q * multiplier + (TWO64 - 1) % multiplier;
    Magnitude(res - q, multiplier);
    assert (res - q) * multiplier == res * multiplier - q * multiplier;
  }

  lemma LowUnfolds(group: string, j: nat, multiplier: nat)
    requires j < DIGITS && multiplier == Pow(BASE, DIGITS - 1 - j)
    ensures j >= |group| ==> Low(group, j) == Low(group, j + 1)
    ensures j < |group| && CharValue(group[j]) != -1 ==> Low(group, j) == CharValue(group[j]) * multiplier + Low(group, j + 1)
  {
    if j < |group| {
      LetterOfValue(group[j]);
    }
  }

  /** One digit of a group: it must be a letter, and adding it must not exceed 64 bits. */
  method AddDigit(group: string, j: nat, multiplier: nat, value: nat) returns (ok: bool, sum: nat)
    requires j < |group| <= DIGITS && 0 < multiplier == Pow(BASE, DIGITS - 1 - j)
    requires value == Low(group, j + 1) < TWO64
    ensures ok ==> CharValue(group[j]) != -1 && sum == Low(group, j) < TWO64
    ensures !ok ==> !GroupOk(group)
  {
    LetterOfValue(group[j]);
    LowUnfolds(group, j, multiplier);
    var res := CharValue(group[j]);
    if res == -1 {
      GroupFails(group, j);
      return false, 0;
    }
    OverflowTest(res, multiplier, value);
    if (TWO64 - 1) / multiplier < res || TWO64 - 1 - value < res * multiplier {
      GroupFails(group, j);
      return false, 0;
    }
    return true, value + res * multiplier;
  }

  ghost predicate LettersFrom(group: string, k: nat) {
    forall i :: k <= i < |group| ==> CharValue(group[i]) != -1
  }

  /** The loop over one group: digits from the lowest position up, in 64-bit arithmetic. */
  method GroupLoop(group: string) returns (ok: bool, value: nat)
    requires |group| <= DIGITS
    ensures ok ==> LettersFrom(group, 0) && value == Low(group, 0) < TWO64
    ensures !ok ==> !GroupOk(group)
  {
    ok, value := true, 0;
    var multiplier := 0;
    var j := DIGITS - 1;
    while j >= 0
      invariant -1 <= j < DIGITS && value == Low(group, j + 1) < TWO64 && ok
      invariant multiplier == if j == DIGITS - 1 then 0 else Pow(BASE, DIGITS - 2 - j)
      invariant LettersFrom(group, j + 1)
    {
      multiplier := NextMultiplier(multiplier, DIGITS - 1 - j);
      if j < |group| {
        ok, value := AddDigit(group, j, multiplier, value);
        if !ok {
          return;
        }
      } else {
        LowUnfolds(group, j, multiplier);
      }
      j := j - 1;
    }
  }

  /** One group of from_string. */
  method GroupNumber(group: string) returns (ok: bool, value: nat)
    requires |group| <= DIGITS
    ensures ok <==> GroupOk(group)
    ensures ok ==> value == Value(BASE, CharDigits(group))
  {
    ok, value := GroupLoop(group);
    if ok {
      GroupPasses(group);
    }
  }

  /** multiplier runs through the powers of 57 and never wraps. */
  method NextMultiplier(multiplier: nat, k: nat) returns (next: nat)
    requires k < DIGITS && multiplier == if k == 0 then 0 else Pow(BASE, k - 1)
    ensures next == Pow(BASE, k) && 0 < next < TWO64
  {
    PowPositive(BASE, k);
    PowPositive(BASE, if k == 0 then 0 else k - 1);
    PowBelow(k);
    if multiplier == 0 {
      next := 1;
    } else {
      next := multiplier * BASE % TWO64;
    }
  }

  lemma {:induction false} PowBelow(k: nat)
    requires k < DIGITS
    ensures Pow(BASE, k) <= Pow(BASE, DIGITS - 1) < TWO64
    decreases DIGITS - k
  {
    Powers();
    if k < DIGITS - 1 {
      PowBelow(k + 1);
      PowPositive(BASE, k);
    }
  }

  /** What is left to decode, and what is decoded so far. */
  ghost predicate DecodedSoFar(str: string, result: seq<Byte>, rest: string) {
    match DecodeGroups(rest)
    case None => DecodeGroups(str).None?
    case Some(bytes) => DecodeGroups(str) == Some(result + bytes)
  }

  lemma DecodeOneMore(str: string, result: seq<Byte>, rest: string, group: string, after: string)
    requires rest != "" && group == rest[..Min(|rest|, DIGITS)] && after == rest[Min(|rest|, DIGITS)..]
    requires DecodedSoFar(str, result, rest)
    ensures !GroupOk(group) ==> DecodeGroups(str).None?
    ensures GroupOk(group) ==> DecodedSoFar(str, result + GroupBytes(Value(BASE, CharDigits(group))), after)
  {
    if GroupOk(group) {
      Reassociate(result, GroupBytes(Value(BASE, CharDigits(group))), DecodeGroups(after));
    }
  }

  /** from_string: one bad group clears the result. */
  method FromString(str: string) returns (result: seq<Byte>)
    ensures result == Decode(str)
    ensures forall k :: 0 <= k < |result| ==> Decodes(str, result[k], k)
  {
    result := DecodeAll(str);
    forall k | 0 <= k < |result|
      ensures Decodes(str, result[k], k)
    {
      DecodedAll(str, result, k);
    }
  }

  method DecodeAll(str: string) returns (result: seq<Byte>)
    ensures result == Decode(str)
  {
    result := [];
    var p := 0;
    assert str[0..] == str;
    assert DecodeGroups(str).Some? ==> [] + DecodeGroups(str).value == DecodeGroups(str).value;
    while p < |str|
      invariant p <= |str| && DecodedSoFar(str, result, str[p..])
    {
      var n := Min(|str| - p, DIGITS);
      var rest := str[p..];
      assert rest[n..] == str[p + n..];
      DecodeOneMore(str, result, rest, rest[..n], str[p + n..]);
      var ok, value := GroupNumber(rest[..n]);
      if !ok {
        return [];
      }
      result := result + GroupBytes(value);
      p := p + n;
    }
    assert str[p..] == "";
  }

  lemma Reassociate(a: seq<Byte>, b: seq<Byte>, c: Option<seq<Byte>>)
    ensures c.Some? ==> a + (b + c.value) == (a + b) + c.value
  {
  }
}
