/** Replacing octets in well-formed UTF-8 is replacing code points. */
module Utf8Replace {
  import opened Octets
  import opened Rfc3629
  import opened StringUtils

  /** The encoding of one text begins that of another only if the texts do. */
  lemma {:induction false} PrefixOfEncoded(p: seq<bv32>, c: seq<bv32>)
    requires AllScalars(p) && AllScalars(c)
    ensures p <= c <==> Encode(p) <= Encode(c)
    decreases |p|
  {
    hide EncodeChar, IsScalar, HeadLength, IsChar, CodePoint, Encode;
    EncodeNone();
    if p == [] {
    } else if c == [] {
      EncodeBegins(p);
    } else {
      EncodeBegins(p);
      EncodeBegins(c);
      if Encode(p) <= Encode(c) {
        SameHead(p[0], Encode(p[1..]), c[0], Encode(c[1..]));
        PrefixOfEncoded(p[1..], c[1..]);
        assert p == [p[0]] + p[1..] && c == [c[0]] + c[1..];
      }
      if p <= c {
        PrefixOfEncoded(p[1..], c[1..]);
        assert p[1..] <= c[1..];
      }
    }
  }

  lemma EncodeBegins(c: seq<bv32>)
    requires c != [] && AllScalars(c)
    ensures IsScalar(c[0]) && IsChar(EncodeChar(c[0])) && EncodeChar(c[0]) != []
    ensures Encode(c) == EncodeChar(c[0]) + Encode(c[1..]) && Encode(c) != []
    ensures CodePoint(EncodeChar(c[0])) == c[0]
  {}

  lemma SameHead(a: bv32, x: text, b: bv32, y: text)
    requires IsScalar(a) && IsScalar(b) && EncodeChar(a) + x <= EncodeChar(b) + y
    ensures a == b && x <= y
  {
    hide EncodeChar, IsScalar, HeadLength, IsChar, CodePoint;
    var t := EncodeChar(b) + y;
    HeadOfChar(EncodeChar(b), y);
    assert t[..|EncodeChar(a)|] == (EncodeChar(a) + x)[..|EncodeChar(a)|] == EncodeChar(a);
    HeadUnique(t, |EncodeChar(a)|);
    assert x == (EncodeChar(a) + x)[|EncodeChar(a)|..];
  }

  /** Octets that cannot begin the pattern are passed one by one. */
  lemma {:induction false} PassOver(u: text, rest: text, from: text, to: text)
    requires from != [] && forall i :: 0 <= i < |u| ==> u[i] != from[0]
    ensures ReplaceAll(u + rest, from, to) == u + ReplaceAll(rest, from, to)
  {
    if u == [] {
      assert u + rest == rest;
    } else {
      var s := u + rest;
      hide ReplaceAll;
      ReplaceAllUnfold(s, from, to);
      assert s[0] == u[0];
      assert s[1..] == u[1..] + rest;
      PassOver(u[1..], rest, from, to);
      assert u == [u[0]] + u[1..];
      Assoc([u[0]], u[1..], ReplaceAll(rest, from, to));
    }
  }

  /** A character that does not begin an occurrence is passed as a whole. */
  lemma PassChar(c: text, rest: text, from: text, to: text)
    requires IsChar(c) && from != [] && !Tail(from[0]) && !(from <= c + rest)
    ensures ReplaceAll(c + rest, from, to) == c + ReplaceAll(rest, from, to)
  {
    hide IsChar, Tail, ReplaceAll;
    var s := c + rest;
    CharOctets(c);
    CharNonEmpty(c);
    ReplaceAllUnfold(s, from, to);
    assert s[1..] == c[1..] + rest;
    PassOver(c[1..], rest, from, to);
    assert c == [c[0]] + c[1..];
    Assoc([c[0]], c[1..], ReplaceAll(rest, from, to));
  }

  /** Replacing octets agrees with replacing code points, so it keeps text well-formed. */
  lemma {:induction false} ReplaceEncoded(c: seq<bv32>, from: seq<bv32>, to: seq<bv32>)
    requires AllScalars(c) && AllScalars(from) && AllScalars(to) && from != []
    ensures Encode(from) != []
    ensures ReplaceAll(Encode(c), Encode(from), Encode(to)) == Encode(ReplaceAll(c, from, to))
    ensures AllScalars(ReplaceAll(c, from, to))
    decreases |c|
  {
    hide *;
    EncodeNone();
    EncodeBegins(from);
    ScalarParts(from);
    ReplaceAllUnfold(c, from, to);
    ReplaceAllUnfold(Encode(c), Encode(from), Encode(to));
    PrefixOfEncoded(from, c);
    if c == [] {
      NoScalars();
    } else if from <= c {
      var rest := c[|from|..];
      ScalarSlice(c, |from|);
      ReplaceEncoded(rest, from, to);
      assert c == from + rest;
      EncodeAppend(from, rest);
      assert Encode(c)[|Encode(from)|..] == Encode(rest);
      EncodeAppend(to, ReplaceAll(rest, from, to));
      ScalarAppend(to, ReplaceAll(rest, from, to));
    } else {
      var rest := c[1..];
      ScalarSlice(c, 1);
      ScalarHead(c);
      EncodeBegins(c);
      ReplaceEncoded(rest, from, to);
      LeadOfEncoded(from);
      PassChar(EncodeChar(c[0]), Encode(rest), Encode(from), Encode(to));
      EncodeAppend([c[0]], ReplaceAll(rest, from, to));
      EncodeOne(c[0]);
      ScalarAppend([c[0]], ReplaceAll(rest, from, to));
    }
  }

  lemma EncodeOne(cp: bv32)
    ensures Encode([cp]) == EncodeChar(cp)
  {
    EncodeNone();
    assert [cp][1..] == [];
  }

  lemma LeadOfEncoded(c: seq<bv32>)
    requires c != [] && AllScalars(c)
    ensures Encode(c) != [] && !Tail(Encode(c)[0])
  {
    EncodeBegins(c);
    CharOctets(EncodeChar(c[0]));
  }

  lemma NoScalars()
    ensures AllScalars([])
  {}

  lemma ScalarParts(c: seq<bv32>)
    requires AllScalars(c) && c != []
    ensures IsScalar(c[0])
  {}

  lemma ScalarHead(c: seq<bv32>)
    requires AllScalars(c) && c != []
    ensures AllScalars([c[0]]) && IsChar(EncodeChar(c[0]))
  {}

  lemma ScalarSlice(c: seq<bv32>, i: nat)
    requires AllScalars(c) && i <= |c|
    ensures AllScalars(c[i..])
  {}

  lemma ScalarAppend(x: seq<bv32>, y: seq<bv32>)
    requires AllScalars(x) && AllScalars(y)
    ensures AllScalars(x + y)
  {}

  /** The same for any well-formed text, pattern and replacement. */
  lemma ReplaceDecoded(t: text, from: text, to: text)
    requires Valid(t) && Valid(from) && Valid(to) && from != []
    ensures Decode(from) != []
    ensures Valid(ReplaceAll(t, from, to))
    ensures Decode(ReplaceAll(t, from, to)) == ReplaceAll(Decode(t), Decode(from), Decode(to))
  {
    hide *;
    ValidIsEncoded(t);
    ValidIsEncoded(from);
    ValidIsEncoded(to);
    EncodeNone();
    ReplaceEncoded(Decode(t), Decode(from), Decode(to));
    DecodeEncode(ReplaceAll(Decode(t), Decode(from), Decode(to)));
  }

  lemma ValidIsEncoded(t: text)
    requires Valid(t)
    ensures Encode(Decode(t)) == t && AllScalars(Decode(t))
  {
    EncodeDecode(t);
    DecodeScalars(t);
  }
}
