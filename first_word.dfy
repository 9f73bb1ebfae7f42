/** `first_word`: the part of a string before its first ASCII space. The
    function scans the string's bytes and returns a slice of it, so the
    model works on bytes. */
module FirstWord {

  newtype byte = b: int | 0 <= b < 256

  /** `b' '`, the only byte that ends a word. */
  const SPACE: byte := 32

  /** Reference definition: the bytes of `s` up to, not including, its first
      space. */
  function WordOf(s: seq<byte>): seq<byte>
  {
    if s == [] || s[0] == SPACE then [] else [s[0]] + WordOf(s[1..])
  }

  /** `WordOf(s)` is the one prefix of `s` that holds no space and is
      followed by a space or by the end of `s`. */
  lemma {:induction false} WordOfCharacterized(s: seq<byte>, w: seq<byte>)
    ensures w == WordOf(s) <==> (w <= s && SPACE !in w && (|w| < |s| ==> s[|w|] == SPACE))
  {
    if s == [] || s[0] == SPACE {
      if w != [] && w <= s {
        assert w[0] == s[0];
      }
    } else {
      if w != [] {
        WordOfCharacterized(s[1..], w[1..]);
        if w <= s {
          assert w == [s[0]] + w[1..];
          assert w[1..] <= s[1..];
        }
        if w[1..] <= s[1..] && w[0] == s[0] {
          assert w <= s;
        }
      } else {
        assert s[|w|] != SPACE;
      }
    }
  }

  /** `first_word`: a loop over byte indices that returns `&s[0..i]` at the
      first space `i`, and the whole of `s` when there is none. */
  method FirstWord(s: seq<byte>) returns (word: seq<byte>)
    ensures word <= s
    ensures SPACE !in word
    ensures |word| < |s| ==> s[|word|] == SPACE
    ensures word == WordOf(s)
  {
    for i := 0 to |s|
      invariant SPACE !in s[..i]
    {
      if s[i] == SPACE {
        word := s[0..i];
        WordOfCharacterized(s, word);
        return;
      }
      assert s[..i + 1] == s[..i] + [s[i]];
    }
    word := s[..];
    assert s[..|s|] == s;
    WordOfCharacterized(s, word);
  }

  /** Taking the first word of a first word changes nothing. */
  lemma WordOfIdempotent(s: seq<byte>)
    ensures WordOf(WordOf(s)) == WordOf(s)
  {
    var w := WordOf(s);
    WordOfCharacterized(s, w);
    WordOfCharacterized(w, w);
  }

  /** Without a space the word is the whole input. */
  lemma WordOfWithoutSpace(s: seq<byte>)
    requires SPACE !in s
    ensures WordOf(s) == s
  {
    WordOfCharacterized(s, s);
  }

  /** With a space, the word is exactly the bytes before the first one. */
  lemma WordOfBeforeSpace(s: seq<byte>, i: nat)
    requires i < |s| && s[i] == SPACE && SPACE !in s[..i]
    ensures WordOf(s) == s[..i]
  {
    WordOfCharacterized(s, s[..i]);
  }

  /** Only the space byte ends a word: every other byte, tabs and line
      feeds included, up to the first space stays in it. */
  lemma OnlySpaceDelimits(s: seq<byte>, k: nat)
    requires k < |s|
    requires forall j :: 0 <= j <= k ==> s[j] != SPACE
    ensures k < |WordOf(s)| && WordOf(s)[k] == s[k]
  {
    var w := WordOf(s);
    WordOfCharacterized(s, w);
  }

  /** The bytes of a string of ASCII characters (its UTF-8 encoding). */
  function AsciiBytes(s: string): (b: seq<byte>)
    requires forall k :: 0 <= k < |s| ==> s[k] as int < 128
    ensures |b| == |s|
    ensures forall k :: 0 <= k < |s| ==> b[k] as int == s[k] as int
  {
    seq(|s|, k requires 0 <= k < |s| => s[k] as int as byte)
  }

  /** The first word of the bytes of a string starting `"hello "`, also when
      only its first six bytes are taken, is `"hello"`. */
  lemma HelloFirst(t: string)
    requires forall k :: 0 <= k < |t| ==> t[k] as int < 128
    requires |t| >= 6 && t[..6] == "hello "
    ensures WordOf(AsciiBytes(t)) == AsciiBytes("hello")
    ensures WordOf(AsciiBytes(t)[0..6]) == AsciiBytes("hello")
  {
    var b := AsciiBytes(t);
    var hello := AsciiBytes("hello");
    assert t[5] == ' ';
    assert b[5] == SPACE;
    forall k | 0 <= k < 5 ensures b[k] == hello[k] {
      assert t[k] == "hello"[k];
    }
    assert b[..5] == hello;
    WordOfBeforeSpace(b, 5);
    assert b[0..6][..5] == hello;
    WordOfBeforeSpace(b[0..6], 5);
  }

  /** `main`: the length printed at line 75 is that of the first word of
      `"hello world sadd"[0..6]`, which is `"hello "`, so 5; the word printed
      at line 91 is the first word of the literal `"hello world"`, `"hello"`. */
  method HelloExample() returns (len: nat, printed: seq<byte>)
    ensures len == 5
    ensures printed == AsciiBytes("hello")
  {
    var myString := AsciiBytes("hello world sadd");
    HelloFirst("hello world sadd");
    var word := FirstWord(myString[0..6]);
    len := |word|;
    HelloFirst("hello world");
    printed := FirstWord(AsciiBytes("hello world"));
  }
}
