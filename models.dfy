/**
 * The to-do entity: a text of at most 200 characters and a completion flag,
 * displayed as the text itself while pending and as the text struck through
 * (every character followed by a combining stroke) once done.
 */
module TodoModels {

  /** COMBINING LONG STROKE OVERLAY, placed after every character of a finished item. */
  const StrikeCharacter: char := '\U{0336}'

  /** The most characters the text column holds. */
  const MaxTextLength: nat := 200

  /**
   * `s` with a strike mark after each of its characters. The recursion peels
   * the last character, mirroring a loop that appends to an accumulator.
   */
  function Struck(s: string): (r: string)
    ensures |r| == 2 * |s|
  {
    if s == [] then [] else Struck(s[..|s| - 1]) + [s[|s| - 1], StrikeCharacter]
  }

  /** The characters at the even positions of `r`, i.e. `r` with its strike marks dropped. */
  function Unstrike(r: string): (s: string)
    ensures |s| == (|r| + 1) / 2
    ensures forall i :: 0 <= i < |s| ==> s[i] == r[2 * i]
  {
    if |r| < 2 then r else [r[0]] + Unstrike(r[2..])
  }

  /** `r` interleaves the characters of `s` with strike marks: s[0], mark, s[1], mark, ... */
  ghost predicate Interleaves(s: string, r: string) {
    && |r| == 2 * |s|
    && (forall i :: 0 <= i < |s| ==> r[2 * i] == s[i])
    && (forall j :: 0 <= j < |r| && j % 2 == 1 ==> r[j] == StrikeCharacter)
  }

  /** Position 2*i of the struck text holds the i-th character, position 2*i+1 a strike mark. */
  lemma {:induction false} StruckAt(s: string, i: nat)
    requires i < |s|
    ensures Struck(s)[2 * i] == s[i]
    ensures Struck(s)[2 * i + 1] == StrikeCharacter
  {
    var n := |s| - 1;
    if i < n {
      StruckAt(s[..n], i);
    }
  }

  /** Striking text is exactly interleaving it with strike marks, in both directions. */
  lemma {:induction false} StruckIffInterleaves(s: string, r: string)
    ensures r == Struck(s) <==> Interleaves(s, r)
  {
    forall j | 0 <= j < |Struck(s)|
      ensures j % 2 == 0 ==> Struck(s)[j] == s[j / 2]
      ensures j % 2 == 1 ==> Struck(s)[j] == StrikeCharacter
    {
      StruckAt(s, j / 2);
    }
    assert Interleaves(s, Struck(s));
    if Interleaves(s, r) {
      forall j | 0 <= j < |r|
        ensures r[j] == Struck(s)[j]
      {
        var i := j / 2;
        assert j == 2 * i || j == 2 * i + 1;
      }
    }
  }

  /** Striking distributes over concatenation. */
  lemma {:induction false} StruckAppend(a: string, b: string)
    ensures Struck(a + b) == Struck(a) + Struck(b)
  {
    if b == [] {
      assert a + b == a;
    } else {
      var n := |b| - 1;
      assert (a + b)[..|a + b| - 1] == a + b[..n];
      StruckAppend(a, b[..n]);
    }
  }

  /** Dropping the strike marks recovers the original text. */
  lemma {:induction false} UnstrikeStruck(s: string)
    ensures Unstrike(Struck(s)) == s
  {
    forall i | 0 <= i < |s|
      ensures Unstrike(Struck(s))[i] == s[i]
    {
      StruckAt(s, i);
    }
  }

  /**
   * Conversely, a string of even length with a strike mark at every odd
   * position is the struck form of its even-position characters.
   */
  lemma {:induction false} StruckUnstrike(r: string)
    requires |r| % 2 == 0
    requires forall j :: 0 <= j < |r| && j % 2 == 1 ==> r[j] == StrikeCharacter
    ensures Struck(Unstrike(r)) == r
  {
    StruckIffInterleaves(Unstrike(r), r);
  }

  /** The worked example: "Buy milk" struck through. */
  lemma BuyMilk()
    ensures Struck("Buy milk")
         == "B\U{0336}u\U{0336}y\U{0336} \U{0336}m\U{0336}i\U{0336}l\U{0336}k\U{0336}"
  {
    StruckIffInterleaves("Buy milk",
      "B\U{0336}u\U{0336}y\U{0336} \U{0336}m\U{0336}i\U{0336}l\U{0336}k\U{0336}");
  }

  /** A to-do item; its fields are assigned in place by whoever edits or toggles it. */
  class TodoItem {
    var text: string
    var done: bool

    /** The column constraint on the text, enforced by the storage layer. */
    ghost predicate Valid()
      reads this
    {
      |text| <= MaxTextLength
    }

    /** A new item, pending by default. */
    constructor (text: string)
      requires |text| <= MaxTextLength
      ensures Valid()
      ensures this.text == text && !done
    {
      this.text := text;
      done := false;
    }

    /** A new item with an explicit completion flag. */
    constructor WithDone(text: string, done: bool)
      requires |text| <= MaxTextLength
      ensures Valid()
      ensures this.text == text && this.done == done
    {
      this.text := text;
      this.done := done;
    }

    /** The text struck through, built one character at a time; reads the fields and changes nothing. */
    method StrikedText() returns (newText: string)
      ensures newText == Struck(text)
    {
      newText := "";
      for i := 0 to |text|
        invariant newText == Struck(text[..i])
      {
        assert text[..i + 1][..i] == text[..i];
        newText := newText + [text[i]] + [StrikeCharacter];
      }
      assert text[..|text|] == text;
    }

    /** The display string: the text while pending, the struck text once done. */
    function Display(): (r: string)
      reads this
      ensures !done ==> r == text
      ensures done ==> Interleaves(text, r) && Unstrike(r) == text
      ensures Valid() ==> |r| <= 2 * MaxTextLength
    {
      if done then
        StruckIffInterleaves(text, Struck(text));
        UnstrikeStruck(text);
        Struck(text)
      else
        text
    }
  }
}
