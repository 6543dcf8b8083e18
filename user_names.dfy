/** The user name derived from an owner's full name:
    `owner.toLowerCase().split(' ').map(name => name[0]).join('')`. */
module UserNames {

  predicate IsUpper(c: char)
  {
    'A' <= c <= 'Z'
  }

  /** `toLowerCase` on one character; only the ASCII letters A to Z are mapped. */
  function LowerChar(c: char): (r: char)
    ensures !IsUpper(r)
    ensures IsUpper(c) ==> r as int == c as int + 32
    ensures r == ' ' <==> c == ' '
    ensures !IsUpper(c) ==> r == c
  {
    if IsUpper(c) then (c as int + 32) as char else c
  }

  function ToLower(s: string): (r: string)
    ensures |r| == |s|
    ensures forall k :: 0 <= k < |s| ==> r[k] == LowerChar(s[k])
  {
    if s == [] then [] else [LowerChar(s[0])] + ToLower(s[1..])
  }

  /** `s.split(' ')`: the pieces between single spaces, so `n` spaces give `n + 1` pieces,
      empty where two spaces meet or at a leading or trailing space. */
  function Split(s: string): (r: seq<string>)
    ensures |r| >= 1
    ensures forall k :: 0 <= k < |r| ==> ' ' !in r[k]
  {
    if s == [] then [""]
    else
      var rest := Split(s[1..]);
      if s[0] == ' ' then [""] + rest
      else [[s[0]] + rest[0]] + rest[1..]
  }

  /** Every character of every piece comes from the split string. */
  lemma {:induction false} SplitChars(s: string)
    ensures forall k, i :: 0 <= k < |Split(s)| && 0 <= i < |Split(s)[k]| ==> Split(s)[k][i] in s
  {
    if s != [] {
      SplitChars(s[1..]);
      var rest := Split(s[1..]);
      assert forall c :: c in s[1..] ==> c in s;
      if s[0] != ' ' {
        var first := [s[0]] + rest[0];
        assert forall i :: 0 <= i < |first| ==> first[i] in s by {
          forall i | 0 <= i < |first|
            ensures first[i] in s
          {
            if i > 0 {
              assert first[i] == rest[0][i - 1];
            }
          }
        }
      }
    }
  }

  /** `words.join(' ')`. */
  function JoinSpaced(words: seq<string>): string
  {
    if words == [] then ""
    else if |words| == 1 then words[0]
    else words[0] + " " + JoinSpaced(words[1..])
  }

  /** Joining the pieces with single spaces rebuilds the string that was split. */
  lemma {:induction false} JoinSplit(s: string)
    ensures JoinSpaced(Split(s)) == s
  {
    if s != [] {
      var rest := Split(s[1..]);
      JoinSplit(s[1..]);
      if s[0] == ' ' {
        assert Split(s) == [""] + rest;
        JoinCons("", rest);
        assert s == " " + s[1..];
      } else {
        assert Split(s) == [[s[0]] + rest[0]] + rest[1..];
        assert rest == [rest[0]] + rest[1..];
        JoinExtendFirst(s[0], rest[0], rest[1..]);
        assert s == [s[0]] + s[1..];
      }
    }
  }

  /** Joining a word in front of a non-empty list puts one space between them. */
  lemma JoinCons(x: string, more: seq<string>)
    requires more != []
    ensures JoinSpaced([x] + more) == x + " " + JoinSpaced(more)
  {
    assert ([x] + more)[1..] == more;
  }

  /** Extending the first piece by a character extends the joined string by it. */
  lemma JoinExtendFirst(c: char, w: string, more: seq<string>)
    ensures JoinSpaced([[c] + w] + more) == [c] + JoinSpaced([w] + more)
  {
    if more != [] {
      JoinCons([c] + w, more);
      JoinCons(w, more);
      assert ([c] + w) + " " + JoinSpaced(more) == [c] + (w + " " + JoinSpaced(more));
    }
  }

  /** A space-free prefix followed by a space splits off as one piece. */
  lemma {:induction false} SplitAfterWord(w: string, t: string)
    requires ' ' !in w
    ensures Split(w + " " + t) == [w] + Split(t)
  {
    if w == [] {
      assert w + " " + t == [' '] + t;
      assert (w + " " + t)[1..] == t;
    } else {
      assert (w + " " + t)[1..] == w[1..] + " " + t;
      SplitAfterWord(w[1..], t);
      assert [w[0]] + w[1..] == w;
    }
  }

  /** A string without spaces is a single piece. */
  lemma {:induction false} SplitWord(w: string)
    requires ' ' !in w
    ensures Split(w) == [w]
  {
    if w != [] {
      SplitWord(w[1..]);
      assert [w[0]] + w[1..] == w;
    }
  }

  /** Splitting undoes joining whenever no word holds a space. */
  lemma {:induction false} SplitJoin(words: seq<string>)
    requires |words| >= 1
    requires forall k :: 0 <= k < |words| ==> ' ' !in words[k]
    ensures Split(JoinSpaced(words)) == words
  {
    if |words| == 1 {
      SplitWord(words[0]);
    } else {
      SplitJoin(words[1..]);
      SplitAfterWord(words[0], JoinSpaced(words[1..]));
      assert words == [words[0]] + words[1..];
    }
  }

  /** `words.map(name => name[0]).join('')`: the first character of each word. An empty word
      yields `undefined`, which `join` writes as nothing. */
  function Initials(words: seq<string>): (r: string)
    ensures |r| <= |words|
  {
    if words == [] then ""
    else (if words[0] == "" then "" else [words[0][0]]) + Initials(words[1..])
  }

  /** With no empty word, the initials hold one character per word, in word order. */
  lemma {:induction false} InitialsOfWords(words: seq<string>)
    requires forall k :: 0 <= k < |words| ==> words[k] != ""
    ensures |Initials(words)| == |words|
    ensures forall k :: 0 <= k < |words| ==> Initials(words)[k] == words[k][0]
  {
    if words != [] {
      InitialsOfWords(words[1..]);
    }
  }

  /** Every character of the initials is the first character of some word. */
  lemma {:induction false} InitialsFromWords(words: seq<string>)
    ensures forall c :: c in Initials(words) ==> exists k :: 0 <= k < |words| && words[k] != "" && words[k][0] == c
  {
    if words != [] {
      InitialsFromWords(words[1..]);
      forall c | c in Initials(words)
        ensures exists k :: 0 <= k < |words| && words[k] != "" && words[k][0] == c
      {
        if words[0] != "" && c == words[0][0] {
        } else {
          assert c in Initials(words[1..]);
          var k :| 0 <= k < |words[1..]| && words[1..][k] != "" && words[1..][k][0] == c;
          assert words[k + 1] == words[1..][k];
        }
      }
    }
  }

  /** The user name of an owner. */
  function UserName(owner: string): (r: string)
    ensures |r| <= |Split(ToLower(owner))|
    ensures forall k :: 0 <= k < |r| ==> !IsUpper(r[k])
  {
    var lower := ToLower(owner);
    var words := Split(lower);
    SplitChars(lower);
    InitialsFromWords(words);
    var r := Initials(words);
    assert forall k :: 0 <= k < |r| ==> r[k] in r;
    assert forall c :: c in lower ==> !IsUpper(c);
    r
  }

  /** For a name whose words are separated by single spaces, the user name has one character per
      word of the lower-cased name, each the first character of its word, in word order. */
  lemma UserNameOfWords(owner: string)
    requires forall k :: 0 <= k < |Split(ToLower(owner))| ==> Split(ToLower(owner))[k] != ""
    ensures |UserName(owner)| == |Split(ToLower(owner))|
    ensures forall k :: 0 <= k < |UserName(owner)| ==> UserName(owner)[k] == Split(ToLower(owner))[k][0]
  {
    InitialsOfWords(Split(ToLower(owner)));
  }

  /** The user name of an owner whose lower-cased name is the given words joined by single
      spaces: the first character of each word, in order. */
  lemma UserNameOfJoined(owner: string, words: seq<string>)
    requires |words| >= 1
    requires forall k :: 0 <= k < |words| ==> words[k] != "" && ' ' !in words[k]
    requires ToLower(owner) == JoinSpaced(words)
    ensures |UserName(owner)| == |words|
    ensures forall k :: 0 <= k < |words| ==> UserName(owner)[k] == words[k][0]
  {
    SplitJoin(words);
    InitialsOfWords(words);
  }

  /** Lower-casing distributes over concatenation. */
  lemma ToLowerAppend(a: string, b: string)
    ensures ToLower(a + b) == ToLower(a) + ToLower(b)
  {
    assert forall k :: 0 <= k < |b| ==> (a + b)[|a| + k] == b[k];
  }

  /** Each word lower-cased. */
  function LowerWords(words: seq<string>): (r: seq<string>)
    ensures |r| == |words|
    ensures forall k :: 0 <= k < |words| ==> r[k] == ToLower(words[k])
  {
    if words == [] then [] else [ToLower(words[0])] + LowerWords(words[1..])
  }

  /** Lower-casing a spaced name lower-cases each word and keeps the spaces. */
  lemma {:induction false} ToLowerJoin(words: seq<string>)
    ensures ToLower(JoinSpaced(words)) == JoinSpaced(LowerWords(words))
  {
    if |words| >= 2 {
      ToLowerJoin(words[1..]);
      ToLowerAppend(words[0], " " + JoinSpaced(words[1..]));
      ToLowerAppend(" ", JoinSpaced(words[1..]));
      assert words[0] + " " + JoinSpaced(words[1..]) == words[0] + (" " + JoinSpaced(words[1..]));
      assert LowerWords(words)[1..] == LowerWords(words[1..]);
    }
  }

  /** An owner's name written as non-empty words separated by single spaces gets one
      character per word: the lower-cased first letter of that word, in order. */
  lemma UserNameOfOwner(owner: string, words: seq<string>)
    requires |words| >= 1
    requires forall k :: 0 <= k < |words| ==> words[k] != "" && ' ' !in words[k]
    requires owner == JoinSpaced(words)
    ensures |UserName(owner)| == |words|
    ensures forall k :: 0 <= k < |words| ==> UserName(owner)[k] == LowerChar(words[k][0])
  {
    ToLowerJoin(words);
    var lower := LowerWords(words);
    forall k | 0 <= k < |words|
      ensures lower[k] != "" && ' ' !in lower[k] && lower[k][0] == LowerChar(words[k][0])
    {
      LowerWord(words[k]);
    }
    UserNameOfJoined(owner, lower);
  }

  /** Lower-casing a non-empty word without spaces keeps it so, and lowers its first letter. */
  lemma LowerWord(w: string)
    requires w != "" && ' ' !in w
    ensures ToLower(w) != "" && ' ' !in ToLower(w) && ToLower(w)[0] == LowerChar(w[0])
  {
  }

  /** The user names the script derives for its four starting owners. Each name is passed as
      a parameter equal to the literal, so that the solver does not unroll `UserName` on it. */
  lemma JonasUserName(owner: string)
    requires owner == "Jonas Schmedtmann"
    ensures UserName(owner) == "js"
  {
    var words := ["Jonas", "Schmedtmann"];
    assert owner == JoinSpaced(words);
    UserNameOfOwner(owner, words);
  }

  lemma JessicaUserName(owner: string)
    requires owner == "Jessica Davis"
    ensures UserName(owner) == "jd"
  {
    var words := ["Jessica", "Davis"];
    assert owner == JoinSpaced(words);
    UserNameOfOwner(owner, words);
  }

  lemma StevenUserName(owner: string)
    requires owner == "Steven Thomas Williams"
    ensures UserName(owner) == "stw"
  {
    var words := ["Steven", "Thomas", "Williams"];
    assert JoinSpaced(words[1..]) == "Thomas Williams";
    assert owner == JoinSpaced(words);
    UserNameOfOwner(owner, words);
  }

  lemma SarahUserName(owner: string)
    requires owner == "Sarah Smith"
    ensures UserName(owner) == "ss"
  {
    var words := ["Sarah", "Smith"];
    assert owner == JoinSpaced(words);
    UserNameOfOwner(owner, words);
  }
}
