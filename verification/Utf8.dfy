/** Code points in strings (rtsrc/ObjString.cpp), encoded as in section 3 of RFC 3629. What
    the code does with masks and shifts is written with division and remainder. */
module Utf8 {
  import opened Basics

  const MaxCodepoint := 0x10ffff

  // ----- Encoding -----

  /** A byte that continues a code point: 10 in the two highest bits. */
  function Cont(x: nat): Byte { 0x80 + x % 64 }

  function Encode(c: nat): (bs: seq<Byte>)
    requires c <= MaxCodepoint
    ensures 1 <= |bs| <= 4
  {
    if c < 0x80 then [c]
    else if c < 0x800 then [0xc0 + c / 64, Cont(c)]
    else if c < 0x10000 then [0xe0 + c / 4096, Cont(c / 64), Cont(c)]
    else [0xf0 + c / 262144, Cont(c / 4096), Cont(c / 64), Cont(c)]
  }

  function EncodeAll(cs: seq<nat>): seq<Byte>
    requires forall i :: 0 <= i < |cs| ==> cs[i] <= MaxCodepoint
  {
    if cs == [] then [] else Encode(cs[0]) + EncodeAll(cs[1..])
  }

  // ----- Reading -----

  predicate IsCont(b: Byte) { b / 64 == 2 }

  /** The length that the first byte says; 1 if it says nothing sensible. */
  function Length(b: Byte): (n: nat)
    ensures 1 <= n <= 4
  {
    if b < 0x80 then 1 else if b / 32 == 6 then 2 else if b / 16 == 14 then 3 else if b / 8 == 30 then 4 else 1
  }

  /** The value of the bytes after the first one, added to it; -1 if one of them is no continuation. */
  function Join(bs: seq<Byte>, first: nat): int {
    if bs == [] then first
    else if !IsCont(bs[0]) then -1
    else Join(bs[1..], first * 64 + bs[0] % 64)
  }

  /** The code point at a place; -1 in the middle of one, or if it is cut off or broken. */
  function CodePointAt(bs: seq<Byte>, i: nat): int
    requires i < |bs|
  {
    var b, n := bs[i], Length(bs[i]);
    if b < 0x80 then b
    else if IsCont(b) then -1
    else if i + n > |bs| then -1
    else Join(bs[i + 1..i + n], b % Pow2(7 - n))
  }

  predicate AllCont(bs: seq<Byte>) {
    forall i :: 0 <= i < |bs| ==> IsCont(bs[i])
  }

  /** How far iteration moves: over a whole code point, or over one byte if it is cut off or broken. */
  function Stride(bs: seq<Byte>, i: nat): (n: nat)
    requires i < |bs|
    ensures 1 <= n <= 4 && i + n <= |bs|
  {
    var n := Length(bs[i]);
    if i + n > |bs| || !AllCont(bs[i + 1..i + n]) then 1 else n
  }

  /** What is read when a string is walked through from a place on. */
  function Walk(bs: seq<Byte>, i: nat): seq<int>
    decreases |bs| - i
  {
    if i >= |bs| then [] else [CodePointAt(bs, i)] + Walk(bs, i + Stride(bs, i))
  }

  // ----- Reading what has been written -----

  lemma Powers()
    ensures Pow2(0) == 1 && Pow2(1) == 2 && Pow2(2) == 4 && Pow2(3) == 8 && Pow2(4) == 16 && Pow2(5) == 32 && Pow2(6) == 64
  {
  }

  lemma ReadOne(pre: seq<Byte>, c: nat, rest: seq<Byte>)
    requires c <= MaxCodepoint
    ensures var bs := pre + Encode(c) + rest;
      CodePointAt(bs, |pre|) == c && Stride(bs, |pre|) == |Encode(c)|
  {
    var bs, e, i := pre + Encode(c) + rest, Encode(c), |pre|;
    Powers();
    LeadByte(c);
    assert bs[i] == e[0] && bs[i + 1..i + |e|] == e[1..];
    if c >= 0x80 {
      JoinBack(c);
    }
  }

  lemma LeadByte(c: nat)
    requires c <= MaxCodepoint
    ensures var e := Encode(c);
      && Length(e[0]) == |e| && (c >= 0x80 ==> e[0] >= 0x80 && !IsCont(e[0]))
      && AllCont(e[1..])
  {
  }

  /** What byte k carries besides the bits that mark it. */
  function Part(bs: seq<Byte>, k: nat, mark: nat): int
    requires k < |bs|
  {
    var b: int := bs[k];
    b - mark
  }

  /** The table of RFC 3629: which bytes a code point has, and which part of it each byte carries. */
  ghost predicate InTable(c: nat, e: seq<Byte>) {
    && (forall k :: 1 <= k < |e| ==> 0x80 <= e[k] <= 0xbf)
    && (c <= 0x7f ==> |e| == 1 && e[0] == c)
    && (0x80 <= c <= 0x7ff ==> |e| == 2 && 0xc0 <= e[0] <= 0xdf && c == Part(e, 0, 0xc0) * 64 + Part(e, 1, 0x80))
    && (0x800 <= c <= 0xffff ==> |e| == 3 && 0xe0 <= e[0] <= 0xef && c == Part(e, 0, 0xe0) * 4096 + Part(e, 1, 0x80) * 64 + Part(e, 2, 0x80))
    && (0x10000 <= c ==>
          |e| == 4 && 0xf0 <= e[0] <= 0xf7 &&
          c == Part(e, 0, 0xf0) * 262144 + Part(e, 1, 0x80) * 4096 + Part(e, 2, 0x80) * 64 + Part(e, 3, 0x80))
  }

  lemma EncodeTable(c: nat)
    requires c <= MaxCodepoint
    ensures InTable(c, Encode(c))
  {
    Sextets(c);
    Sextets(c / 64);
    Sextets(c / 4096);
  }

  /** a comes before b, byte by byte, and is no prefix of it. */
  ghost predicate Before(a: seq<Byte>, b: seq<Byte>) {
    exists k :: 0 <= k < |a| && k < |b| && a[..k] == b[..k] && a[k] < b[k]
  }

  /** The order of the bytes is the order of the code points. */
  lemma OrderKept(c: nat, d: nat)
    requires c < d <= MaxCodepoint
    ensures Before(Encode(c), Encode(d))
  {
    EncodeTable(c);
    EncodeTable(d);
    hide Encode;
    TableOrder(c, Encode(c), d, Encode(d));
  }

  lemma TableOrder(c: nat, a: seq<Byte>, d: nat, b: seq<Byte>)
    requires c < d && InTable(c, a) && InTable(d, b)
    ensures Before(a, b)
  {
    if a[0] < b[0] {
      assert a[..0] == b[..0];
    } else if a[1] < b[1] {
      assert a[..1] == b[..1];
    } else if a[2] < b[2] {
      assert a[..2] == b[..2];
    } else {
      assert a[..3] == b[..3];
    }
  }

  lemma JoinBack(c: nat)
    requires 0x80 <= c <= MaxCodepoint
    ensures var e := Encode(c); Join(e[1..], e[0] % Pow2(7 - |e|)) == c
  {
    var e := Encode(c);
    Powers();
    Sextets(c);
    Sextets(c / 64);
    Sextets(c / 4096);
    if c < 0x800 {
      LeadBits(c / 64);
      Join1(e[1], c / 64);
      assert e[1..] == [Cont(c)];
    } else if c < 0x10000 {
      LeadBits(c / 4096);
      Join2(e[1], e[2], c / 4096);
      assert e[1..] == [Cont(c / 64), Cont(c)];
    } else {
      LeadBits(c / 262144);
      Join3(e[1], e[2], e[3], c / 262144);
      assert e[1..] == [Cont(c / 4096), Cont(c / 64), Cont(c)];
    }
    hide *;
  }

  /** The bits of the code point in the first byte. */
  lemma LeadBits(x: nat)
    ensures x < 32 ==> (0xc0 + x) % 32 == x
    ensures x < 16 ==> (0xe0 + x) % 16 == x
    ensures x < 8 ==> (0xf0 + x) % 8 == x
  {
  }

  lemma Sextets(c: nat)
    ensures c == (c / 64) * 64 + c % 64 && Cont(c) % 64 == c % 64 && IsCont(Cont(c))
    ensures c / 64 / 64 == c / 4096 && c / 4096 / 64 == c / 262144
  {
  }

  lemma Join2(b: Byte, b': Byte, first: nat)
    requires IsCont(b) && IsCont(b')
    ensures Join([b, b'], first) == (first * 64 + b % 64) * 64 + b' % 64
  {
    assert [b, b'][1..] == [b'];
    Join1(b', first * 64 + b % 64);
  }

  lemma Join3(b: Byte, b': Byte, b'': Byte, first: nat)
    requires IsCont(b) && IsCont(b') && IsCont(b'')
    ensures Join([b, b', b''], first) == ((first * 64 + b % 64) * 64 + b' % 64) * 64 + b'' % 64
  {
    assert [b, b', b''][1..] == [b', b''];
    Join2(b', b'', first * 64 + b % 64);
  }

  lemma Join1(b: Byte, first: nat)
    requires IsCont(b)
    ensures Join([b], first) == first * 64 + b % 64
  {
    assert [b][1..] == [];
    assert Join([], first * 64 + b % 64) == first * 64 + b % 64;
  }

  /** Encoding any code points and walking through the result gives them back. */
  lemma {:induction false} RoundTrip(pre: seq<Byte>, cs: seq<nat>)
    requires forall i :: 0 <= i < |cs| ==> cs[i] <= MaxCodepoint
    ensures Walk(pre + EncodeAll(cs), |pre|) == cs
    decreases |cs|
  {
    hide Encode, CodePointAt, Stride;
    if cs == [] {
      assert pre + EncodeAll(cs) == pre;
    } else {
      var e, rest := Encode(cs[0]), EncodeAll(cs[1..]);
      ReadOne(pre, cs[0], rest);
      RoundTrip(pre + e, cs[1..]);
      assert EncodeAll(cs) == e + rest;
      WalkOne(pre, e, rest);
      hide Walk, EncodeAll;
      assert cs == [cs[0]] + cs[1..];
    }
  }

  lemma WalkOne(pre: seq<Byte>, e: seq<Byte>, rest: seq<Byte>)
    requires e != [] && Stride(pre + e + rest, |pre|) == |e|
    ensures Walk(pre + (e + rest), |pre|) == [CodePointAt(pre + e + rest, |pre|)] + Walk(pre + e + rest, |pre + e|)
  {
    hide CodePointAt, Stride;
    assert pre + (e + rest) == pre + e + rest;
  }

  // ----- Any bytes -----

  /** Bytes that a code point of RFC 3629 can begin with: 0x00-0x7f, 0xc2-0xf4, with the second byte
      at least 0xa0 after 0xe0, at least 0x90 after 0xf0 and below 0x90 after 0xf4. */
  predicate Starts(bs: seq<Byte>, i: nat)
    requires i < |bs|
  {
    var b := bs[i];
    || b < 0x80 || 0xc2 <= b < 0xe0 || 0xe1 <= b < 0xf0 || 0xf1 <= b < 0xf4
    || (i + 1 < |bs| && ((b == 0xe0 && bs[i + 1] >= 0xa0) || (b == 0xf0 && bs[i + 1] >= 0x90) || (b == 0xf4 && bs[i + 1] < 0x90)))
  }

  /** Exactly when a number that is read from any bytes is a code point that is written there: the first
      two bytes tell. For all others the number is wrong, and nothing reports it. */
  lemma ReadIsWritten(bs: seq<Byte>, i: nat)
    requires i < |bs| && CodePointAt(bs, i) != -1
    ensures var c, n := CodePointAt(bs, i), Length(bs[i]);
      && c >= 0 && i + n <= |bs|
      && (c <= MaxCodepoint && bs[i..i + n] == Encode(c) <==> Starts(bs, i))
  {
    var b, n := bs[i], Length(bs[i]);
    if b < 0x80 {
      assert bs[i..i + n] == [b];
    } else {
      Powers();
      var tail := bs[i + 1..i + n];
      assert bs[i..i + n] == [b] + tail;
      JoinWhole(tail, b % Pow2(7 - n));
      TailStarts(b, tail);
    }
  }

  lemma TailStarts(b: Byte, tail: seq<Byte>)
    requires b >= 0x80 && !IsCont(b) && |tail| == Length(b) - 1 && AllCont(tail)
    ensures var c := Join(tail, b % Pow2(7 - Length(b)));
      c >= 0 && (c <= MaxCodepoint && [b] + tail == Encode(c) <==> Starts([b] + tail, 0))
  {
    Powers();
    if b < 0xf8 {
      Lead(b);
      TailShortest(b, tail);
    } else {
      assert tail == [];
    }
  }

  /** With a first byte that announces its length, the form must be as short as possible. */
  lemma TailShortest(b: Byte, tail: seq<Byte>)
    requires 0x80 <= b < 0xf8 && !IsCont(b) && |tail| == Length(b) - 1 && AllCont(tail)
    ensures var c := Join(tail, b % Pow2(7 - Length(b)));
      c >= 0 && (c <= MaxCodepoint && [b] + tail == Encode(c) <==> Starts([b] + tail, 0))
  {
    Powers();
    Lead(b);
    var c := Join(tail, b % Pow2(7 - Length(b)));
    Shortest(b, tail);
    if 0 <= c <= MaxCodepoint && |Encode(c)| == Length(b) {
      Rewritten(b, tail, c);
    }
    hide *;
  }

  lemma Shortest(b: Byte, tail: seq<Byte>)
    requires 0x80 <= b < 0xf8 && !IsCont(b) && |tail| == Length(b) - 1 && AllCont(tail)
    ensures var c := Join(tail, b % Pow2(7 - Length(b)));
      c >= 0 && (c <= MaxCodepoint && |Encode(c)| == |tail| + 1 <==> Starts([b] + tail, 0))
  {
    Powers();
    Lead(b);
    if |tail| == 1 {
      assert tail == [tail[0]];
      Join1(tail[0], b % 32);
    } else if |tail| == 2 {
      assert tail == [tail[0], tail[1]];
      Join2(tail[0], tail[1], b % 16);
      Least(b % 16 * 64 + tail[0] % 64, tail[1]);
    } else {
      assert tail == [tail[0], tail[1], tail[2]];
      Join3(tail[0], tail[1], tail[2], b % 8);
      Least2(b % 8 * 64 + tail[0] % 64, tail[1], tail[2]);
    }
    hide Join;
  }

  lemma Least(x: nat, b: Byte)
    ensures x * 64 + b % 64 < 0x10000 <==> x < 1024
    ensures x * 64 + b % 64 < 0x800 <==> x < 32
  {
  }

  lemma Least2(x: nat, b: Byte, b': Byte)
    ensures var c := (x * 64 + b % 64) * 64 + b' % 64; (c < 0x10000 <==> x < 16) && (c <= MaxCodepoint <==> x < 272)
  {
  }

  /** How many more bytes the first byte of a code point announces. */
  function Announced(b: Byte): nat {
    if 0xc0 <= b < 0xe0 then 1 else if 0xe0 <= b < 0xf0 then 2 else if 0xf0 <= b < 0xf8 then 3 else 0
  }

  /** There is a byte at the place, and it is one between 0x80 and 0xbf. */
  predicate Follows(bs: seq<Byte>, j: nat) { j < |bs| && 0x80 <= bs[j] < 0xc0 }

  /** One of the announced bytes is not there. */
  predicate Broken(bs: seq<Byte>, i: nat)
    requires i < |bs|
  {
    exists j :: i < j <= i + Announced(bs[i]) && !Follows(bs, j)
  }

  lemma AnnouncedLength(b: Byte)
    ensures Length(b) == 1 + Announced(b)
  {
  }

  /** Exactly what is reported: a place in the middle of a code point, and one that is cut off or broken. Iteration
      moves over one byte there, and over the whole code point everywhere else. */
  lemma ReportedExactly(bs: seq<Byte>, i: nat)
    requires i < |bs|
    ensures CodePointAt(bs, i) == -1 <==> 0x80 <= bs[i] < 0xc0 || Broken(bs, i)
    ensures Stride(bs, i) == if Broken(bs, i) then 1 else 1 + Announced(bs[i])
  {
    var b, n := bs[i], Length(bs[i]);
    AnnouncedLength(b);
    if i + n > |bs| {
      assert !Follows(bs, |bs|);
    } else {
      TailBroken(bs, i, n);
      Powers();
      JoinFails(bs[i + 1..i + n], b % Pow2(7 - n));
    }
    hide Join;
  }

  lemma TailBroken(bs: seq<Byte>, i: nat, n: nat)
    requires i < |bs| && n == 1 + Announced(bs[i]) && i + n <= |bs|
    ensures AllCont(bs[i + 1..i + n]) <==> !Broken(bs, i)
  {
    var tail := bs[i + 1..i + n];
    assert forall j :: 0 <= j < |tail| ==> tail[j] == bs[i + (j + 1)];
    if !AllCont(tail) {
      var j :| 0 <= j < |tail| && !IsCont(tail[j]);
      var k := i + 1 + j;
      assert !Follows(bs, k);
    }
    if Broken(bs, i) {
      var k :| i < k <= i + Announced(bs[i]) && !Follows(bs, k);
      assert tail[k - i - 1] == bs[k];
    }
  }

  lemma {:induction false} JoinFails(bs: seq<Byte>, first: nat)
    ensures Join(bs, first) == -1 <==> !AllCont(bs)
  {
    if Join(bs, first) != -1 {
      JoinWhole(bs, first);
    } else {
      if IsCont(bs[0]) {
        JoinFails(bs[1..], first * 64 + bs[0] % 64);
        var i :| 0 <= i < |bs[1..]| && !IsCont(bs[1..][i]);
        assert !IsCont(bs[i + 1]);
      }
    }
  }

  /** Three ways in which a wrong number is read: from a first byte that starts nothing, ... */
  lemma NotAStart()
    ensures CodePointAt([0xff], 0) == 63 && Encode(63) != [0xff]
  {
    Powers();
  }

  /** ... from a form that is too long, ... */
  lemma Overlong()
    ensures CodePointAt([0xc0, 0x80], 0) == 0 && Encode(0) != [0xc0, 0x80]
  {
    Powers();
    Join1(0x80, 0);
    assert [0xc0, 0x80][1..2] == [0x80];
  }

  /** ... and from one for a number beyond the code points. */
  lemma BeyondUnicode()
    ensures CodePointAt([0xf4, 0x90, 0x80, 0x80], 0) == 0x110000 > MaxCodepoint
  {
    Powers();
    Join3(0x90, 0x80, 0x80, 4);
    assert [0xf4, 0x90, 0x80, 0x80][1..4] == [0x90, 0x80, 0x80];
  }

  lemma {:induction false} JoinWhole(bs: seq<Byte>, first: nat)
    requires Join(bs, first) != -1
    ensures AllCont(bs) && Join(bs, first) >= 0
  {
    if bs != [] {
      JoinWhole(bs[1..], first * 64 + bs[0] % 64);
      assert forall k :: 0 < k < |bs| ==> bs[k] == bs[1..][k - 1];
    }
  }

  lemma Rewritten(b: Byte, tail: seq<Byte>, c: nat)
    requires 0x80 <= b < 0xf8 && !IsCont(b) && |tail| == Length(b) - 1 && AllCont(tail)
    requires c == Join(tail, b % Pow2(7 - Length(b))) && c <= MaxCodepoint && |Encode(c)| == Length(b)
    ensures Encode(c) == [b] + tail
  {
    Powers();
    Lead(b);
    if |tail| == 1 {
      assert tail == [tail[0]];
      Join1(tail[0], b % 32);
      Rewritten1(b, tail[0], c);
    } else if |tail| == 2 {
      assert tail == [tail[0], tail[1]];
      Join2(tail[0], tail[1], b % 16);
      Rewritten2(b, tail[0], tail[1], c);
    } else {
      assert tail == [tail[0], tail[1], tail[2]];
      Join3(tail[0], tail[1], tail[2], b % 8);
      Rewritten3(b, tail[0], tail[1], tail[2], c);
    }
    hide *;
  }

  lemma Rewritten1(b: Byte, t: Byte, c: nat)
    requires IsCont(t) && c == b % 32 * 64 + t % 64 && c <= MaxCodepoint && |Encode(c)| == 2 && b == 0xc0 + b % 32
    ensures Encode(c) == [b, t]
  {
    Digits(b % 32, t);
  }

  lemma Rewritten2(b: Byte, t: Byte, t': Byte, c: nat)
    requires IsCont(t) && IsCont(t') && c == (b % 16 * 64 + t % 64) * 64 + t' % 64 && c <= MaxCodepoint && |Encode(c)| == 3
    requires b == 0xe0 + b % 16
    ensures Encode(c) == [b, t, t']
  {
    Digits(b % 16, t);
    Digits(b % 16 * 64 + t % 64, t');
    Sextets(c);
    hide Cont;
  }

  lemma Rewritten3(b: Byte, t: Byte, t': Byte, t'': Byte, c: nat)
    requires IsCont(t) && IsCont(t') && IsCont(t'') && c == ((b % 8 * 64 + t % 64) * 64 + t' % 64) * 64 + t'' % 64
    requires c <= MaxCodepoint && |Encode(c)| == 4 && b == 0xf0 + b % 8
    ensures Encode(c) == [b, t, t', t'']
  {
    Digits(b % 8, t);
    Digits(b % 8 * 64 + t % 64, t');
    Digits((b % 8 * 64 + t % 64) * 64 + t' % 64, t'');
    Sextets(c);
    hide Cont;
  }

  lemma Digits(x: nat, b: Byte)
    requires IsCont(b)
    ensures var c := x * 64 + b % 64; c / 64 == x && Cont(c) == b
  {
  }

  lemma Lead(b: Byte)
    requires 0x80 <= b < 0xf8 && !IsCont(b)
    ensures Length(b) == 2 ==> b == 0xc0 + b % 32
    ensures Length(b) == 3 ==> b == 0xe0 + b % 16
    ensures Length(b) == 4 ==> b == 0xf0 + b % 8
    ensures Length(b) >= 2
  {
  }

  lemma OneMoreCont(bs: seq<Byte>, k: nat)
    requires k < |bs|
    ensures AllCont(bs[..k + 1]) <==> AllCont(bs[..k]) && IsCont(bs[k])
    ensures AllCont(bs) ==> IsCont(bs[k])
  {
    assert bs[..k + 1] == bs[..k] + [bs[k]];
    if AllCont(bs[..k + 1]) {
      assert IsCont(bs[..k + 1][k]);
      assert forall i :: 0 <= i < k ==> bs[..k][i] == bs[..k + 1][i];
    }
  }

  // ----- The code -----

  class ObjString {
    var value: seq<Byte>

    constructor ()
      ensures value == []
    {
      value := [];
    }

    /** False where the program aborts. */
    method AppendCodepoint(codepoint: int) returns (ok: bool)
      modifies this
      ensures ok <==> 0 <= codepoint <= MaxCodepoint
      ensures value == if ok then old(value) + Encode(codepoint) else old(value)
    {
      if codepoint < 0 {
        return false;
      }
      if codepoint < 0x80 {
        value := value + [codepoint];
      } else if codepoint < 0x800 {
        value := value + [0xc0 + codepoint / 64];
        value := value + [0x80 + codepoint % 64];
      } else if codepoint < 0x10000 {
        value := value + [0xe0 + codepoint / 4096];
        value := value + [0x80 + codepoint / 64 % 64];
        value := value + [0x80 + codepoint % 64];
      } else if codepoint < 0x110000 {
        value := value + [0xf0 + codepoint / 262144];
        value := value + [0x80 + codepoint / 4096 % 64];
        value := value + [0x80 + codepoint / 64 % 64];
        value := value + [0x80 + codepoint % 64];
      } else {
        return false;
      }
      return true;
    }

    /** Negative indices count from the end; None where the program aborts. */
    function PrepareIndex(index: int): (i: Option<nat>)
      reads this
      ensures i.Some? ==> i.value < |value| && i.value == if index < 0 then index + |value| else index
      ensures i.None? <==> index < -|value| || index >= |value|
    {
      var j := if index < 0 then index + |value| else index;
      if j < 0 || j >= |value| then None else Some(j)
    }

    method CodePointAt_(index: int) returns (c: Option<int>)
      ensures PrepareIndex(index).None? ==> c == None
      ensures PrepareIndex(index).Some? ==> c == Some(CodePointAt(value, PrepareIndex(index).value))
    {
      var prepared := PrepareIndex(index);
      if prepared.None? {
        return None;
      }
      var at := prepared.value;
      var firstByte := value[at];
      if firstByte < 0x80 {
        return Some(firstByte);
      }
      if IsCont(firstByte) {
        return Some(-1);
      }
      var length := Length(value[at]);
      if at + length > |value| {
        return Some(-1);
      }
      var codepoint := firstByte % Pow2(7 - length);
      ghost var tail := value[at + 1..at + length];
      var i := 1;
      while i < length
        invariant 1 <= i <= length && codepoint >= 0
        invariant Join(tail, firstByte % Pow2(7 - length)) == Join(tail[i - 1..], codepoint)
      {
        var byte := value[at + i];
        assert tail[i - 1] == byte && tail[i - 1..][1..] == tail[i..];
        if !IsCont(byte) {
          return Some(-1);
        }
        codepoint := codepoint * 64 + byte % 64;
        i := i + 1;
      }
      return Some(codepoint);
    }

    /** The next position after the previous one (None at first); None when there is none, or
        the previous position is not in the string. */
    method Iterate(previous: Option<int>, unicode: bool) returns (next: Option<nat>)
      ensures match previous
              case None => next == if value == [] then None else Some(0)
              case Some(p) =>
                if p < 0 || p >= |value| then next == None
                else
                  var q := p + if unicode then Stride(value, p) else 1;
                  next == if q < |value| then Some(q) else None
      ensures next.Some? && previous.Some? ==> previous.value < next.value < |value|
    {
      if value == [] {
        return None;
      }
      if previous.None? {
        return Some(0);
      }
      var position := previous.value;
      if position < 0 || position >= |value| {
        return None;
      }
      if unicode {
        var len := Length(value[position]);
        if position + len > |value| {
          len := 1;
        }
        ghost var n, tail := len, value[position + 1..position + len];
        var i := 1;
        while i < len
          invariant 1 <= i && (len == n || len == 1)
          invariant len == n && i <= n ==> AllCont(tail[..i - 1])
          invariant len == 1 && n > 1 ==> !AllCont(tail)
          invariant i <= n || len == 1
          decreases n - i
        {
          assert tail[i - 1] == value[position + i];
          OneMoreCont(tail, i - 1);
          if !IsCont(value[position + i]) {
            len := 1;
          }
          i := i + 1;
        }
        assert len == n ==> n == 1 || tail[..n - 1] == tail;
        position := position + len;
      } else {
        position := position + 1;
      }
      if position >= |value| {
        return None;
      }
      return Some(position);
    }

    /** What a program reads that iterates over the code points. */
    method CodePoints() returns (cs: seq<int>)
      ensures cs == Walk(value, 0)
    {
      cs := [];
      var it := Iterate(None, true);
      FromStart(value);
      hide Walk, CodePointAt, Stride;
      while it.Some?
        invariant it.Some? ==> it.value < |value|
        invariant Walk(value, 0) == cs + From(value, it)
        decreases if it.Some? then |value| - it.value else 0
      {
        ghost var before := cs;
        var c := CodePointAt_(it.value);
        cs := cs + [c.value];
        FromNext(value, it.value);
        it := Iterate(Some(it.value), true);
        assert before + ([c.value] + From(value, it)) == cs + From(value, it);
      }
    }
  }

  ghost function From(bs: seq<Byte>, it: Option<nat>): seq<int> {
    if it.Some? then Walk(bs, it.value) else []
  }

  lemma FromStart(bs: seq<Byte>)
    ensures Walk(bs, 0) == [] + From(bs, if bs == [] then None else Some(0))
  {
    assert Walk(bs, 0) == From(bs, if bs == [] then None else Some(0));
  }

  lemma FromNext(bs: seq<Byte>, i: nat)
    requires i < |bs|
    ensures var next := i + Stride(bs, i);
      From(bs, Some(i)) == [CodePointAt(bs, i)] + From(bs, if next < |bs| then Some(next) else None)
  {
    var next := i + Stride(bs, i);
    assert Walk(bs, i) == [CodePointAt(bs, i)] + Walk(bs, next);
    assert next >= |bs| ==> Walk(bs, next) == [];
  }
}
