/** A way for sealed values to appear as bytes: the assumption the transit theorems make
    about encryption can be met. */
module IdealWire {
  import opened Text
  import opened Aead
  import opened Codec
  import opened Transit

  /** A text as bytes, three to a character. */
  function TextBytes(s: string): Bytes {
    if s == [] then []
    else
      var c := s[0] as int;
      [c / 65536, c / 256 % 256, c % 256] + TextBytes(s[1..])
  }

  lemma SameDigits(c: int, d: int)
    requires c / 65536 == d / 65536 && c / 256 % 256 == d / 256 % 256 && c % 256 == d % 256
    ensures c == d
  {
  }

  lemma {:induction false} TextBytesInjective(s: string, t: string)
    requires TextBytes(s) == TextBytes(t)
    ensures s == t
  {
    if s != [] && t != [] {
      var a, b := TextBytes(s), TextBytes(t);
      assert a[0] == b[0] && a[1] == b[1] && a[2] == b[2];
      SameDigits(s[0] as int, t[0] as int);
      assert a[3..] == TextBytes(s[1..]) && b[3..] == TextBytes(t[1..]);
      TextBytesInjective(s[1..], t[1..]);
      assert s == [s[0]] + s[1..] && t == [t[0]] + t[1..];
    }
  }

  /** A sealed value written out in full, behind room for a tag. */
  function WrittenOut(box: Sealed<Bytes>): Bytes {
    match box
    case Empty => []
    case Sealed(key, nonce, aad, plaintext) =>
      seq(TAG_SIZE, _ => 0) + nonce +
      TextBytes(Decimal(key) + [':'] + (Encode64(plaintext, true) + [':'] + aad))
  }

  lemma WrittenOutInjective(a: Sealed<Bytes>, b: Sealed<Bytes>)
    requires a.Sealed? && b.Sealed? && WrittenOut(a) == WrittenOut(b)
    ensures a == b
  {
    var room: Bytes := seq(TAG_SIZE, _ => 0);
    var rest := Encode64(a.plaintext, true) + [':'] + a.aad;
    var rest' := Encode64(b.plaintext, true) + [':'] + b.aad;
    var text, text' := Decimal(a.key) + [':'] + rest, Decimal(b.key) + [':'] + rest';
    SplitFront(room, a.nonce, TextBytes(text), b.nonce, TextBytes(text'));
    TextBytesInjective(text, text');
    SplitUnique(Decimal(a.key), rest, Decimal(b.key), rest', ':');
    DecimalInjective(a.key, b.key);
    EncodedAlphabet(a.plaintext, true);
    EncodedAlphabet(b.plaintext, true);
    SplitUnique(Encode64(a.plaintext, true), a.aad, Encode64(b.plaintext, true), b.aad, ':');
    Base64RoundTrip(a.plaintext, true);
    Base64RoundTrip(b.plaintext, true);
  }

  lemma SplitFront(room: Bytes, nonce: Nonce, text: Bytes, nonce': Nonce, text': Bytes)
    requires room + nonce + text == room + nonce' + text'
    ensures nonce == nonce' && text == text'
  {
    var all, all' := room + nonce + text, room + nonce' + text';
    assert all[|room|..|room| + NONCE_SIZE] == nonce && all'[|room|..|room| + NONCE_SIZE] == nonce';
    assert all[|room| + NONCE_SIZE..] == text && all'[|room| + NONCE_SIZE..] == text';
  }

  ghost function ReadBack(bytes: Bytes): Sealed<Bytes> {
    if exists box: Sealed<Bytes> :: box.Sealed? && WrittenOut(box) == bytes
    then var box: Sealed<Bytes> :| box.Sealed? && WrittenOut(box) == bytes; box
    else Sealed.Empty
  }

  /** The hypothesis of the transit theorems can be met. */
  lemma IdealWireExists() returns (wire: Wire)
    ensures Ideal(wire)
  {
    wire := Wire(WrittenOut, ReadBack);
    forall box: Sealed<Bytes> | box.Sealed? ensures ReadBack(WrittenOut(box)) == box {
      WrittenOutInjective(ReadBack(WrittenOut(box)), box);
    }
  }
}
