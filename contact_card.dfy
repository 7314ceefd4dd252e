/** The contact card's `getInitials` helper. */
module ContactCard {

  /** The index of the last space, or -1 when there is none. */
  function LastSpace(s: string): (i: int)
    ensures -1 <= i < |s|
    ensures i >= 0 ==> s[i] == ' '
    ensures forall k :: i < k < |s| ==> s[k] != ' '
  {
    if s == [] then -1
    else if s[|s| - 1] == ' ' then |s| - 1
    else LastSpace(s[..|s| - 1])
  }

  /** The index of the first space, or the length when there is none. */
  function FirstSpace(s: string): (i: nat)
    ensures i <= |s|
    ensures i < |s| ==> s[i] == ' '
    ensures forall k :: 0 <= k < i ==> s[k] != ' '
  {
    if s == [] || s[0] == ' ' then 0 else 1 + FirstSpace(s[1..])
  }

  /** `name.split(" ")`: the pieces between single spaces, empty pieces included. */
  function Split(s: string): (parts: seq<string>)
    ensures |parts| >= 1
    decreases |s|
  {
    var j := LastSpace(s);
    if j < 0 then [s] else Split(s[..j]) + [s[j + 1..]]
  }

  /** The pieces joined back with single spaces. */
  function Join(parts: seq<string>): string
    requires |parts| >= 1
  {
    if |parts| == 1 then parts[0] else Join(parts[..|parts| - 1]) + " " + parts[|parts| - 1]
  }

  /** Splitting on spaces loses nothing: joining the pieces gives the name back. */
  lemma {:induction false} JoinSplit(s: string)
    ensures Join(Split(s)) == s
    decreases |s|
  {
    var j := LastSpace(s);
    if j >= 0 {
      var front := Split(s[..j]);
      JoinSplit(s[..j]);
      var parts := front + [s[j + 1..]];
      assert parts[..|parts| - 1] == front;
      assert s == s[..j] + " " + s[j + 1..];
    }
  }

  /** No piece contains a space. */
  lemma {:induction false} SplitPiecesHaveNoSpace(s: string)
    ensures forall k, m :: 0 <= k < |Split(s)| && 0 <= m < |Split(s)[k]| ==> Split(s)[k][m] != ' '
    decreases |s|
  {
    var j := LastSpace(s);
    if j >= 0 {
      SplitPiecesHaveNoSpace(s[..j]);
      var front := Split(s[..j]);
      forall k, m | 0 <= k < |Split(s)| && 0 <= m < |Split(s)[k]| ensures Split(s)[k][m] != ' ' {
        if k < |front| {
          assert Split(s)[k] == front[k];
        } else {
          assert Split(s)[k][m] == s[j + 1 + m];
        }
      }
    }
  }

  /** The text before the first space (all of it when there is no space). */
  function BeforeFirstSpace(s: string): string {
    s[..FirstSpace(s)]
  }

  /** The text after the last space (all of it when there is no space). */
  function AfterLastSpace(s: string): string {
    s[LastSpace(s) + 1..]
  }

  /** Cutting the name at one of its spaces keeps the first space. */
  lemma FirstSpaceOfPrefix(s: string, j: int)
    requires 0 <= j < |s| && s[j] == ' '
    ensures FirstSpace(s[..j]) == FirstSpace(s)
  {
    assert forall k :: 0 <= k < j ==> s[..j][k] == s[k];
  }

  /** The first piece is the text before the first space. */
  lemma {:induction false} SplitFirst(s: string)
    ensures Split(s)[0] == BeforeFirstSpace(s)
    decreases |s|
  {
    var j := LastSpace(s);
    if j < 0 {
      assert FirstSpace(s) == |s|;
    } else {
      SplitFirst(s[..j]);
      FirstSpaceOfPrefix(s, j);
    }
  }

  /** There is one piece exactly when there is no space. */
  lemma SplitSingle(s: string)
    ensures |Split(s)| == 1 <==> LastSpace(s) < 0
  {
    var j := LastSpace(s);
    if j >= 0 {
      assert |Split(s)| == |Split(s[..j])| + 1;
    }
  }

  /** `toUpperCase` on one character: ASCII letters only. */
  function UpperChar(c: char): char {
    if 'a' <= c <= 'z' then (c as int - 32) as char else c
  }

  function Upper(s: string): (r: string)
    ensures |r| == |s| && forall k :: 0 <= k < |s| ==> r[k] == UpperChar(s[k])
  {
    if s == [] then [] else [UpperChar(s[0])] + Upper(s[1..])
  }

  /** `charAt(0)`: the first character, or "" for an empty string. */
  function FirstChar(s: string): (r: string)
    ensures |r| <= 1 && (s == [] <==> r == [])
    ensures s != [] ==> r == [s[0]]
  {
    if s == [] then "" else [s[0]]
  }

  function GetInitials(name: string): (r: string)
    ensures |r| <= 2
  {
    var parts := Split(name);
    if |parts| == 1 then Upper(FirstChar(parts[0]))
    else Upper(FirstChar(parts[0]) + FirstChar(parts[|parts| - 1]))
  }

  /** What the initials are, in terms of the name itself: with no space the upper-cased first
      character; otherwise the first character before the first space and the first character
      after the last space, either missing when that piece is empty. */
  lemma GetInitialsMeaning(name: string)
    ensures ' ' !in name ==> GetInitials(name) == (if name == [] then [] else [UpperChar(name[0])])
    ensures ' ' in name ==>
      GetInitials(name) == Upper(FirstChar(BeforeFirstSpace(name)) + FirstChar(AfterLastSpace(name)))
  {
    SplitSingle(name);
    SplitFirst(name);
    if ' ' in name {
      var k :| 0 <= k < |name| && name[k] == ' ';
      assert LastSpace(name) >= 0;
    } else {
      assert Split(name) == [name];
    }
  }

  /** A leading space gives an empty first piece, which contributes nothing. */
  lemma LeadingSpaceExample()
    ensures GetInitials(" Bob") == "B"
  {
    var b := " Bob";
    assert b[0] == ' ' && b[1] != ' ' && b[2] != ' ' && b[3] != ' ';
    assert LastSpace(b) == 0;
    assert " Bob"[..0] == "" && " Bob"[1..] == "Bob";
    assert LastSpace("") == -1;
    assert Split(" Bob") == ["", "Bob"];
  }
}
