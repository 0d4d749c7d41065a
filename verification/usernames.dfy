/**
 * Username derivation: `owner.toLowerCase().split(' ').map((name) => name[0]).join('')`.
 * Characters are treated as ASCII; `name[0]` of an empty word is `undefined`, which
 * `join('')` renders as the empty string, so empty words contribute nothing.
 */
module Usernames {

  predicate IsUpper(c: char) { 'A' <= c <= 'Z' }

  /** `toLowerCase` on one character, ASCII letters only. */
  function LowerChar(c: char): char
  {
    if IsUpper(c) then (c as int + 32) as char else c
  }

  function Lower(s: string): string
  {
    seq(|s|, i requires 0 <= i < |s| => LowerChar(s[i]))
  }

  /** `s.split(' ')`: the maximal space-free pieces between single spaces, including empty ones. */
  function Split(s: string): (words: seq<string>)
    ensures |words| >= 1
    ensures forall i :: 0 <= i < |words| ==> ' ' !in words[i]
  {
    if s == [] then [[]]
    else
      var rest := Split(s[1..]);
      if s[0] == ' ' then [[]] + rest
      else [[s[0]] + rest[0]] + rest[1..]
  }

  /** `words.join(' ')`. */
  function JoinSpaces(words: seq<string>): string
    requires |words| >= 1
  {
    if |words| == 1 then words[0] else words[0] + [' '] + JoinSpaces(words[1..])
  }

  /** `words.map((name) => name[0]).join('')`: the first character of every non-empty word. */
  function Initials(words: seq<string>): string
  {
    if words == [] then []
    else (if words[0] == [] then [] else [words[0][0]]) + Initials(words[1..])
  }

  /** The username of an account owner, script.js:101-105. */
  function Username(owner: string): (r: string)
    ensures r == Scan(Lower(owner), true)
  {
    InitialsAreScan(Lower(owner));
    Initials(Split(Lower(owner)))
  }

  /**
   * Reference definition of the initials: one left-to-right scan that keeps every
   * non-space character that starts the string or follows a space.
   */
  function Scan(s: string, atWordStart: bool): (r: string)
    ensures |r| <= |s|
    ensures forall i :: 0 <= i < |r| ==> r[i] in s && r[i] != ' '
  {
    if s == [] then []
    else if s[0] == ' ' then Scan(s[1..], true)
    else (if atWordStart then [s[0]] else []) + Scan(s[1..], false)
  }

  /** Splitting and joining again gives back the original string. */
  lemma {:induction false} JoinSplit(s: string)
    ensures JoinSpaces(Split(s)) == s
  {
    if s != [] {
      var rest := Split(s[1..]);
      JoinSplit(s[1..]);
      if s[0] == ' ' {
        assert Split(s) == [[]] + rest;
      } else if |rest| == 1 {
        assert Split(s) == [[s[0]] + rest[0]];
      } else {
        assert Split(s)[1..] == rest[1..];
      }
    }
  }

  /** Splitting a space-free word followed by more text extends the first piece. */
  lemma {:induction false} SplitPrefix(w: string, t: string)
    requires ' ' !in w
    ensures Split(w + t) == [w + Split(t)[0]] + Split(t)[1..]
  {
    var words := Split(t);
    if w != [] {
      assert (w + t)[1..] == w[1..] + t;
      SplitPrefix(w[1..], t);
      var rest := Split(w[1..] + t);
      assert rest[0] == w[1..] + words[0] && rest[1..] == words[1..];
      assert w[0] != ' ';
      assert Split(w + t) == [[w[0]] + rest[0]] + rest[1..];
      assert [w[0]] + (w[1..] + words[0]) == w + words[0];
    } else {
      assert w + t == t;
      assert w + words[0] == words[0];
      assert words == [words[0]] + words[1..];
    }
  }

  /** Joining space-free words and splitting again gives back the words. */
  lemma {:induction false} SplitJoin(words: seq<string>)
    requires |words| >= 1
    requires forall i :: 0 <= i < |words| ==> ' ' !in words[i]
    ensures Split(JoinSpaces(words)) == words
  {
    if |words| == 1 {
      SplitPrefix(words[0], []);
      assert words[0] + [] == words[0];
    } else {
      var tail := JoinSpaces(words[1..]);
      SplitJoin(words[1..]);
      assert ([' '] + tail)[1..] == tail;
      assert words[0] + [' '] + tail == words[0] + ([' '] + tail);
      assert Split([' '] + tail) == [[]] + words[1..];
      SplitPrefix(words[0], [' '] + tail);
      assert words[0] + [] == words[0];
      assert words == [words[0]] + words[1..];
    }
  }

  /** Initials over the split equal the scan; the tail of the split is the scan outside a word start. */
  lemma {:induction false} InitialsAreScan(s: string)
    ensures Initials(Split(s)) == Scan(s, true)
    ensures Initials(Split(s)[1..]) == Scan(s, false)
  {
    if s != [] {
      var rest := Split(s[1..]);
      InitialsAreScan(s[1..]);
      if s[0] == ' ' {
        assert Split(s) == [[]] + rest;
        assert Split(s)[1..] == rest;
      } else {
        var words := Split(s);
        assert words == [[s[0]] + rest[0]] + rest[1..];
        assert words[1..] == rest[1..];
      }
    }
  }

  /**
   * The username is the lower-cased first character of every word, in order:
   * it agrees with the scan, is no longer than the owner's name, holds no
   * space and no upper-case ASCII letter.
   */
  lemma UsernameShape(owner: string)
    ensures Username(owner) == Scan(Lower(owner), true)
    ensures |Username(owner)| <= |owner|
    ensures forall i :: 0 <= i < |Username(owner)| ==> Username(owner)[i] != ' ' && !IsUpper(Username(owner)[i])
  {
    InitialsAreScan(Lower(owner));
    var u := Username(owner);
    forall i | 0 <= i < |u|
      ensures !IsUpper(u[i])
    {
      var j :| 0 <= j < |owner| && Lower(owner)[j] == u[i];
    }
  }

  /** An owner whose lower-cased name is space-free words joined by single spaces gets their initials. */
  lemma UsernameOfWords(owner: string, words: seq<string>)
    requires |words| >= 1
    requires forall i :: 0 <= i < |words| ==> ' ' !in words[i]
    requires Lower(owner) == JoinSpaces(words)
    ensures Username(owner) == Initials(words)
  {
    SplitJoin(words);
  }

  /** Usernames of the four seed accounts' owners (script.js:9, 16, 23 and 30). */
  lemma JonasUsername()
    ensures Username("Jonas Schmedtmann") == "js"
  {
    UsernameOfWords("Jonas Schmedtmann", ["jonas", "schmedtmann"]);
  }

  lemma JessicaUsername()
    ensures Username("Jessica Davis") == "jd"
  {
    UsernameOfWords("Jessica Davis", ["jessica", "davis"]);
  }

  lemma StevenUsername()
    ensures Username("Steven Thomas Williams") == "stw"
  {
    UsernameOfWords("Steven Thomas Williams", ["steven", "thomas", "williams"]);
  }

  lemma SarahUsername()
    ensures Username("Sarah Smith") == "ss"
  {
    UsernameOfWords("Sarah Smith", ["sarah", "smith"]);
  }

  lemma SeedUsernames()
    ensures Username("Jonas Schmedtmann") == "js"
    ensures Username("Jessica Davis") == "jd"
    ensures Username("Steven Thomas Williams") == "stw"
    ensures Username("Sarah Smith") == "ss"
  {
    JonasUsername();
    JessicaUsername();
    StevenUsername();
    SarahUsername();
  }
}
