/**
 * The text transformation applied to every inbound Text payload:
 * `text.chars().rev().collect::<String>()`.
 *
 * A Rust `char` is one Unicode scalar value, and so is a Dafny `char`
 * (Unicode characters are on by default in Dafny 4), so a payload is a
 * `seq<char>`. The reversal is by scalar value, not by grapheme cluster:
 * a base letter followed by a combining mark comes out as the mark
 * followed by the letter.
 */
module Reversal {

  /** Reverses `s` the way `chars().rev()` yields it: the last scalar first. */
  function Reverse(s: seq<char>): (r: seq<char>)
    ensures |r| == |s|
  {
    if s == [] then [] else [s[|s| - 1]] + Reverse(s[..|s| - 1])
  }

  /** Position `k` of the output holds position `|s| - 1 - k` of the input. */
  lemma {:induction false} ReverseAt(s: seq<char>, k: nat)
    requires k < |s|
    ensures Reverse(s)[k] == s[|s| - 1 - k]
  {
    if k > 0 {
      ReverseAt(s[..|s| - 1], k - 1);
    }
  }

  /** Reversal turns a concatenation around. */
  lemma {:induction false} ReverseAppend(a: seq<char>, b: seq<char>)
    ensures Reverse(a + b) == Reverse(b) + Reverse(a)
  {
    if b == [] {
      assert a + b == a;
    } else {
      var b' := b[..|b| - 1];
      assert (a + b)[..|a + b| - 1] == a + b';
      ReverseAppend(a, b');
    }
  }

  /** Reversing twice gives the original text back. */
  lemma {:induction false} ReverseInvolutive(s: seq<char>)
    ensures Reverse(Reverse(s)) == s
  {
    if s != [] {
      var init := s[..|s| - 1];
      var last := s[|s| - 1];
      calc {
        Reverse(Reverse(s));
        Reverse([last] + Reverse(init));
        { ReverseAppend([last], Reverse(init)); }
        Reverse(Reverse(init)) + Reverse([last]);
        { ReverseInvolutive(init); }
        init + Reverse([last]);
        { assert [last][..0] == []; }
        init + [last];
        s;
      }
    }
  }

  /** The output holds the same scalar values, each as often as the input. */
  lemma {:induction false} ReverseSameScalars(s: seq<char>)
    ensures multiset(Reverse(s)) == multiset(s)
  {
    if s != [] {
      var init := s[..|s| - 1];
      ReverseSameScalars(init);
      assert s == init + [s[|s| - 1]];
    }
  }

  /** Worked cases: a word, the empty text, and a letter with a combining acute accent. */
  lemma ReverseExamples()
    ensures Reverse("hello") == "olleh"
    ensures Reverse("") == ""
    ensures Reverse("e\U{0301}") == "\U{0301}e"
  {
    assert "hello"[..4] == "hell";
    assert "hell"[..3] == "hel";
    assert "hel"[..2] == "he";
    assert "he"[..1] == "h";
    assert "e\U{0301}"[..1] == "e";
  }
}
