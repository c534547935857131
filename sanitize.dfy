/** The title sanitiser of the download handler: the title, or "video" when
    the title is missing or empty, with every character removed that is not
    a word character, white space or '-' (the regular expression
    /[^\w\s-]/g replaced by ""). */
module Sanitize {

  import opened Wrappers

  /** `\w` of a JavaScript regular expression without the u or i flag. */
  predicate IsWordChar(c: char) {
    ('A' <= c <= 'Z') || ('a' <= c <= 'z') || ('0' <= c <= '9') || c == '_'
  }

  /** `\s` of a JavaScript regular expression: the ECMAScript WhiteSpace and
      LineTerminator characters, where the space separators are those of the
      Unicode category Zs. */
  predicate IsJsSpace(c: char) {
    if c <= ' ' then
      c == ' ' || ('\t' <= c <= '\r')  // tab, line feed, vertical tab, form feed, carriage return
    else if c < '\U{00A0}' then
      false
    else
      || c == '\U{00A0}' || c == '\U{1680}'
      || ('\U{2000}' <= c <= '\U{200A}')
      || c == '\U{2028}' || c == '\U{2029}' || c == '\U{202F}' || c == '\U{205F}'
      || c == '\U{3000}' || c == '\U{FEFF}'
  }

  /** The characters that survive sanitising: `[\w\s-]`. */
  predicate Kept(c: char) {
    IsWordChar(c) || IsJsSpace(c) || c == '-'
  }

  /** `s.replace(/[^\w\s-]/g, '')`. */
  function StripDisallowed(s: string): (r: string)
    ensures |r| <= |s|
  {
    if s == [] then []
    else (if Kept(s[0]) then [s[0]] else []) + StripDisallowed(s[1..])
  }

  /** The stem of the download's file name: the fallback is taken when the
      title is missing or empty, and sanitising happens after it. */
  function TitleStem(title: Option<string>): string {
    StripDisallowed(if title.None? || title.value == "" then "video" else title.value)
  }

  /** Only characters of `[\w\s-]` remain. */
  lemma {:induction false} StripOnlyKept(s: string)
    ensures forall i :: 0 <= i < |StripDisallowed(s)| ==> Kept(StripDisallowed(s)[i])
  {
    if s != [] {
      StripOnlyKept(s[1..]);
    }
  }

  /** Every character of the result is a character of the input. */
  lemma {:induction false} StripFromInput(s: string)
    ensures forall i :: 0 <= i < |StripDisallowed(s)| ==> StripDisallowed(s)[i] in s
  {
    if s != [] {
      StripFromInput(s[1..]);
      assert forall c :: c in s[1..] ==> c in s;
    }
  }

  /** `a` is obtained from `b` by deleting characters, keeping the order. */
  predicate IsSubsequence(a: string, b: string)
    decreases |b|
  {
    if a == [] then true
    else if b == [] then false
    else if a[0] == b[0] then IsSubsequence(a[1..], b[1..])
    else IsSubsequence(a, b[1..])
  }

  lemma {:induction false} StripIsSubsequence(s: string)
    ensures IsSubsequence(StripDisallowed(s), s)
  {
    if s != [] {
      StripIsSubsequence(s[1..]);
      var r := StripDisallowed(s);
      if Kept(s[0]) {
        assert r[0] == s[0] && r[1..] == StripDisallowed(s[1..]);
      } else {
        assert r == StripDisallowed(s[1..]);
        StripOnlyKept(s[1..]);
        assert r != [] ==> r[0] != s[0];
      }
    }
  }

  /** Every kept character occurs in the result as often as in the input, and
      no other character occurs in it. Together with the subsequence lemma
      this says the result is exactly the input with the other characters
      deleted. */
  lemma {:induction false} StripCounts(s: string, c: char)
    ensures multiset(StripDisallowed(s))[c] == if Kept(c) then multiset(s)[c] else 0
  {
    if s != [] {
      StripCounts(s[1..], c);
      assert s == [s[0]] + s[1..];
      assert multiset(s) == multiset([s[0]]) + multiset(s[1..]);
    }
  }

  lemma {:induction false} StripConcat(a: string, b: string)
    ensures StripDisallowed(a + b) == StripDisallowed(a) + StripDisallowed(b)
  {
    if a != [] {
      assert (a + b)[1..] == a[1..] + b;
      StripConcat(a[1..], b);
    } else {
      assert a + b == b;
    }
  }

  /** Sanitising leaves a string unchanged exactly when every character of
      it is kept. */
  lemma {:induction false} StripFixedPoint(s: string)
    ensures StripDisallowed(s) == s <==> forall i :: 0 <= i < |s| ==> Kept(s[i])
  {
    if s != [] {
      StripFixedPoint(s[1..]);
      if !Kept(s[0]) {
        assert |StripDisallowed(s)| < |s|;
      } else if StripDisallowed(s) == s {
        assert StripDisallowed(s[1..]) == s[1..];
      } else {
        assert StripDisallowed(s[1..]) != s[1..];
        assert exists i :: 0 <= i < |s[1..]| && !Kept(s[1..][i]);
      }
    }
  }

  lemma StripIdempotent(s: string)
    ensures StripDisallowed(StripDisallowed(s)) == StripDisallowed(s)
  {
    StripOnlyKept(s);
    StripFixedPoint(StripDisallowed(s));
  }

  /** A string with no kept character sanitises to nothing. */
  lemma {:induction false} StripNothingKept(s: string)
    requires forall i :: 0 <= i < |s| ==> !Kept(s[i])
    ensures StripDisallowed(s) == ""
  {
    if s != [] {
      StripNothingKept(s[1..]);
    }
  }

  /** The fallback "video" is used exactly when the title is missing or
      empty; otherwise the stem is the sanitised title, possibly empty. */
  lemma TitleStemCases(title: Option<string>)
    ensures title.None? || title == Some("") ==> TitleStem(title) == "video"
    ensures title.Some? && title.value != "" ==> TitleStem(title) == StripDisallowed(title.value)
  {
    assert StripDisallowed("video") == "video" by {
      StripFixedPoint("video");
    }
  }

  /** A title made only of punctuation or letters outside `\w`, such as Thai
      script, gives an empty stem: the fallback is not taken. */
  lemma TitleStemNothingKept(t: string)
    requires t != "" && forall i :: 0 <= i < |t| ==> !Kept(t[i])
    ensures TitleStem(Some(t)) == ""
  {
    StripNothingKept(t);
  }

  /** The title "Test/Video: Best?!" gives the stem "TestVideo Best". */
  lemma TitleStemExample(title: string)
    requires title == "Test/" + "Video:" + " Best?!"
    ensures TitleStem(Some(title)) == "TestVideo Best"
  {
    StripExampleHead();
    StripExampleTail();
    StripConcat("Test/" + "Video:", " Best?!");
    TitleStemCases(Some(title));
  }

  lemma StripExampleHead()
    ensures StripDisallowed("Test/" + "Video:") == "TestVideo"
  {
    StripExampleTest();
    StripExampleVideo();
    StripConcat("Test/", "Video:");
  }

  lemma StripExampleTest()
    ensures StripDisallowed("Test/") == "Test"
  {
    StripWordThenPunctuation("Test", "/");
  }

  lemma StripExampleVideo()
    ensures StripDisallowed("Video:") == "Video"
  {
    StripWordThenPunctuation("Video", ":");
  }

  lemma StripExampleTail()
    ensures StripDisallowed(" Best?!") == " Best"
  {
    StripWordThenPunctuation(" Best", "?!");
  }

  lemma StripWordThenPunctuation(w: string, p: string)
    requires forall i :: 0 <= i < |w| ==> Kept(w[i])
    requires forall i :: 0 <= i < |p| ==> !Kept(p[i])
    ensures StripDisallowed(w + p) == w
  {
    StripConcat(w, p);
    StripFixedPoint(w);
    StripNothingKept(p);
  }

  /** The literal title of the example above, written in one piece. */
  lemma TitleStemExampleLiteral()
    ensures TitleStem(Some("Test/Video: Best?!")) == "TestVideo Best"
  {
    TitleStemExample("Test/Video: Best?!");
  }

  lemma TitleStemNonLatinExamples()
    ensures TitleStem(Some("\U{0E2A}\U{0E27}\U{0E31}\U{0E2A}\U{0E14}\U{0E35}")) == ""
    ensures TitleStem(Some("!?")) == ""
  {
    TitleStemNothingKept("\U{0E2A}\U{0E27}\U{0E31}\U{0E2A}\U{0E14}\U{0E35}");
    TitleStemNothingKept("!?");
  }

}
