/**
 * The line cipher: a keystream derived from a password and a target length,
 * combined with the data by a cyclic byte-wise XOR, and applied line by line
 * to the whole buffer.  Decryption is the same transform followed by a
 * printability check.
 */
module Cipher {
  import opened Ascii

  /** Block i of the keystream: to_string(|p| * (i + 1)) followed by the password. */
  function Block(p: Text, i: nat): (b: Text)
    ensures |b| > |p|
  {
    DecimalString(|p| * (i + 1)) + p
  }

  /** The first n blocks of the keystream, concatenated. */
  function Stream(p: Text, n: nat): Text
  {
    if n == 0 then [] else Stream(p, n - 1) + Block(p, n - 1)
  }

  /** Each block is at least one byte long, so n blocks reach at least n bytes. */
  lemma {:induction false} StreamLength(p: Text, n: nat)
    ensures |Stream(p, n)| >= n
  {
    if n > 0 {
      StreamLength(p, n - 1);
    }
  }

  /** Shorter streams are prefixes of longer ones. */
  lemma {:induction false} StreamPrefix(p: Text, m: nat, n: nat)
    requires m <= n
    ensures Stream(p, m) <= Stream(p, n)
  {
    if m < n {
      StreamPrefix(p, m, n - 1);
    }
  }

  /**
   * deriveKey: the first `length` bytes of the keystream for a non-empty
   * password, and the empty key for an empty one.
   */
  function DeriveKey(p: Text, length: nat): (key: Text)
    ensures |p| == 0 ==> key == []
    ensures |p| > 0 ==> |key| == length
  {
    if |p| == 0 then []
    else
      StreamLength(p, length);
      Stream(p, length)[..length]
  }

  /** The key of a given length is the prefix of every long enough stream. */
  lemma DeriveKeyIsStreamPrefix(p: Text, length: nat, n: nat)
    requires |p| > 0 && |Stream(p, n)| >= length
    ensures DeriveKey(p, length) == Stream(p, n)[..length]
  {
    StreamLength(p, length);
    if n <= length {
      StreamPrefix(p, n, length);
    } else {
      StreamPrefix(p, length, n);
    }
  }

  /** A shorter key is a prefix of a longer key for the same password. */
  lemma DeriveKeyPrefix(p: Text, m: nat, n: nat)
    requires m <= n
    ensures DeriveKey(p, m) <= DeriveKey(p, n)
  {
    if |p| > 0 {
      StreamLength(p, n);
      DeriveKeyIsStreamPrefix(p, m, n);
    }
  }

  /**
   * The key starts with the decimal length of the password, so for lines no
   * longer than that prefix every password of the same length gives the same
   * key: the printability check cannot tell such passwords apart.
   */
  lemma DeriveKeyDependsOnlyOnLengthAtFirst(p: Text, q: Text, length: nat)
    requires |p| == |q| > 0 && length <= |DecimalString(|p|)|
    ensures DeriveKey(p, length) == DeriveKey(q, length)
    ensures DeriveKey(p, length) == DecimalString(|p|)[..length]
  {
    var d := DecimalString(|p|);
    assert |p| * (0 + 1) == |p|;
    assert Stream(p, 1) == d + p && Stream(q, 1) == d + q;
    DeriveKeyIsStreamPrefix(p, length, 1);
    DeriveKeyIsStreamPrefix(q, length, 1);
    assert (d + p)[..length] == d[..length] == (d + q)[..length];
  }

  /**
   * xorCrypt: each data byte XOR-ed with the key byte at the same position
   * modulo the key length; the empty key leaves the data as it is.
   */
  function XorCrypt(data: Text, key: Text): (r: Text)
    ensures |r| == |data|
    ensures key == [] ==> r == data
  {
    if key == [] then data
    else seq(|data|, i requires 0 <= i < |data| => data[i] ^ key[i % |key|])
  }

  /** The combine step is its own inverse, for every key. */
  lemma XorCryptInvolutive(data: Text, key: Text)
    ensures XorCrypt(XorCrypt(data, key), key) == data
  {
    if key != [] {
      var once := XorCrypt(data, key);
      var twice := XorCrypt(once, key);
      forall i | 0 <= i < |data|
        ensures twice[i] == data[i]
      {
        assert once[i] == data[i] ^ key[i % |key|];
      }
    }
  }

  /** The per-line transform of encryptFile and decryptFile: each line with the key sized to it. */
  function CryptLine(line: Text, password: Text): (r: Text)
    ensures |r| == |line|
  {
    XorCrypt(line, DeriveKey(password, |line|))
  }

  /** The transform applied to every line of the buffer independently. */
  function CryptLines(lines: seq<Text>, password: Text): (r: seq<Text>)
    ensures |r| == |lines|
    ensures forall i :: 0 <= i < |lines| ==> |r[i]| == |lines[i]|
  {
    seq(|lines|, i requires 0 <= i < |lines| => CryptLine(lines[i], password))
  }

  /**
   * Since every line keeps its length, the second application uses the same
   * keys as the first and undoes it.
   */
  lemma CryptLinesInvolutive(lines: seq<Text>, password: Text)
    ensures CryptLines(CryptLines(lines, password), password) == lines
  {
    var once := CryptLines(lines, password);
    forall i | 0 <= i < |lines|
      ensures CryptLine(once[i], password) == lines[i]
    {
      XorCryptInvolutive(lines[i], DeriveKey(password, |lines[i]|));
    }
  }

  /** The plausibility check of decryptFile: every byte of every line is printable. */
  predicate AllPrintable(lines: seq<Text>)
  {
    forall i, j :: 0 <= i < |lines| && 0 <= j < |lines[i]| ==> IsPrint(lines[i][j])
  }

  /**
   * The round trip the editor relies on: decrypting encrypted printable text
   * with the same password passes the check and gives the text back.
   */
  lemma EncryptDecryptRoundTrip(lines: seq<Text>, password: Text)
    requires AllPrintable(lines)
    ensures AllPrintable(CryptLines(CryptLines(lines, password), password))
    ensures CryptLines(CryptLines(lines, password), password) == lines
  {
    CryptLinesInvolutive(lines, password);
  }

  /**
   * A wrong password is caught: "AA" encrypted with "a" and decrypted with "!"
   * yields the control byte 0x01.
   */
  lemma WrongPasswordRejected()
    ensures AllPrintable([[0x41, 0x41]])
    ensures !AllPrintable(CryptLines(CryptLines([[0x41, 0x41]], [0x61]), [0x21]))
  {
    var plain: seq<Text> := [[0x41, 0x41]];
    var a: Text := [0x61];
    var bang: Text := [0x21];
    assert DecimalString(1) == [0x31];
    assert Stream(a, 1) == [0x31, 0x61];
    assert Stream(bang, 1) == [0x31, 0x21];
    StreamLength(a, 2);
    StreamLength(bang, 2);
    DeriveKeyIsStreamPrefix(a, 2, 1);
    DeriveKeyIsStreamPrefix(bang, 2, 1);
    assert DeriveKey(a, 2) == [0x31, 0x61];
    assert DeriveKey(bang, 2) == [0x31, 0x21];
    var enc := CryptLines(plain, a);
    assert enc[0] == [0x70, 0x20];
    var dec := CryptLines(enc, bang);
    assert dec[0][1] == 0x01;
  }
}
