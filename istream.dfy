/**
 * The two `std::istream` extractions the programs use on text they have
 * received: `std::getline(is, str)` and `is >> str` for a `std::string`. A
 * stream is modelled by the characters it has not yet handed out together
 * with its eofbit and failbit.
 */
module Istream {
  import opened Text

  datatype Stream = Stream(rest: string, eof: bool, fail: bool) {
    /** `good()`: neither eofbit nor failbit (badbit never arises here). */
    predicate Good() {
      !eof && !fail
    }
  }

  /** A fresh `std::istringstream` over `s`, or an `std::istream` over a stream buffer holding `s`. */
  function Over(s: string): Stream {
    Stream(s, false, false)
  }

  /** The outcome of one extraction: the stream afterwards, and the string produced if the target was assigned. */
  datatype Extraction = Extraction(st: Stream, value: Option<string>)

  /** `s` cut at its first newline; `found` says whether there was one. */
  datatype Split = Split(line: string, rest: string, found: bool)

  function SplitLine(s: string): (r: Split)
    ensures r.found <==> '\n' in s
    ensures '\n' !in r.line
    ensures r.found ==> s == r.line + "\n" + r.rest
    ensures !r.found ==> r.line == s && r.rest == []
  {
    if s == [] then Split([], [], false)
    else if s[0] == '\n' then Split([], s[1..], true)
    else
      var t := SplitLine(s[1..]);
      Split([s[0]] + t.line, t.rest, t.found)
  }

  /**
   * `std::getline(is, str)`: a failed stream sets failbit and leaves `str`
   * alone. Otherwise `str` is emptied and receives the characters up to the
   * first newline, which is consumed but not stored; running out of input sets
   * eofbit, and also failbit when nothing at all was extracted.
   */
  function GetLine(st: Stream): (r: Extraction)
    ensures !st.Good() ==> r.value.None? && r.st.fail && r.st.rest == st.rest
    ensures st.Good() ==> r.value.Some? && '\n' !in r.value.value
    ensures st.Good() && '\n' in st.rest ==>
              st.rest == r.value.value + "\n" + r.st.rest && r.st.Good()
    ensures st.Good() && '\n' !in st.rest ==>
              r.value.value == st.rest && r.st.rest == [] && r.st.eof && (r.st.fail <==> st.rest == [])
  {
    if !st.Good() then Extraction(st.(fail := true), None)
    else
      var sp := SplitLine(st.rest);
      if sp.found then Extraction(Stream(sp.rest, false, false), Some(sp.line))
      else Extraction(Stream([], true, sp.line == []), Some(sp.line))
  }

  /** `s` without its leading whitespace. */
  function SkipSpace(s: string): (r: string)
    ensures |r| <= |s| && r == s[|s| - |r|..]
    ensures r == [] || !IsSpace(r[0])
    ensures forall i :: 0 <= i < |s| - |r| ==> IsSpace(s[i])
  {
    if s != [] && IsSpace(s[0]) then SkipSpace(s[1..]) else s
  }

  /** The longest prefix of `s` that holds no whitespace. */
  function LeadingWord(s: string): (w: string)
    ensures |w| <= |s| && w == s[..|w|]
    ensures forall i :: 0 <= i < |w| ==> !IsSpace(w[i])
    ensures |w| == |s| || IsSpace(s[|w|])
  {
    if s == [] || IsSpace(s[0]) then [] else [s[0]] + LeadingWord(s[1..])
  }

  /**
   * `is >> str`: when the stream is not good, or holds nothing but
   * whitespace, extraction fails and `str` keeps its value (the sentry that
   * skips the whitespace sets eofbit and failbit on running out). Otherwise
   * `str` becomes the next run of non-whitespace characters, the character
   * after it is left in the stream, and eofbit is set when the run ended at
   * the end of the input.
   */
  function ExtractWord(st: Stream): (r: Extraction)
    ensures !st.Good() ==> r.value.None? && !r.st.Good()
    ensures st.Good() ==> (r.value.None? <==> Words(st.rest) == [])
    ensures r.value.None? ==> !r.st.Good()
    ensures r.value.Some? ==>
              && Words(st.rest) != []
              && r.value.value == Words(st.rest)[0]
              && Words(r.st.rest) == Words(st.rest)[1..]
    ensures r.value.Some? ==> (r.st.rest == [] || IsSpace(r.st.rest[0])) && !r.st.fail
    ensures r.value.Some? ==> (r.st.eof <==> r.st.rest == [])
  {
    if !st.Good() then Extraction(st.(fail := true), None)
    else
      var t := SkipSpace(st.rest);
      WordsSkipSpace(st.rest);
      if t == [] then Extraction(Stream([], true, true), None)
      else
        var w := LeadingWord(t);
        var after := t[|w|..];
        WordsAtWord(t);
        Extraction(Stream(after, after == [], false), Some(w))
  }

  /**
   * A successful word extraction consumes a prefix of the input that holds
   * exactly the extracted word (the whitespace before it and the word itself).
   */
  lemma ExtractWordConsumes(st: Stream) returns (head: string)
    requires ExtractWord(st).value.Some?
    ensures st.rest == head + ExtractWord(st).st.rest
    ensures Words(head) == [ExtractWord(st).value.value]
    ensures head != [] && !IsSpace(head[|head| - 1])
  {
    var t := SkipSpace(st.rest);
    var w := LeadingWord(t);
    ExtractedPrefix(st.rest, t, w);
    head := st.rest[..|st.rest| - |t|] + w;
    assert head[|head| - 1] == w[|w| - 1];
  }

  /**
   * `is >> str >> str` on a fresh stream over `msg`, `str` holding `init`
   * beforehand: the stream afterwards and the final value of `str`, which is
   * the second word, or the first when there is only one, or `init` when
   * there is none.
   */
  function ExtractTwice(msg: string, init: string): (r: (Stream, string))
    ensures |Words(msg)| >= 2 ==>
              && r.1 == Words(msg)[1]
              && Words(r.0.rest) == Words(msg)[2..]
              && !r.0.fail && (r.0.eof <==> r.0.rest == [])
    ensures |Words(msg)| == 1 ==> r.1 == Words(msg)[0] && !r.0.Good()
    ensures Words(msg) == [] ==> r.1 == init && !r.0.Good()
  {
    var first := ExtractWord(Over(msg));
    var second := ExtractWord(first.st);
    var r := (second.st, second.value.GetOr(first.value.GetOr(init)));
    // the branches differ only in which lemma justifies the contract
    if |Words(msg)| >= 2 then SecondExtracted(msg); r
    else FewerThanTwoExtracted(msg); r
  }

  /** Two successful word extractions consume a prefix of the input that holds exactly the first two words. */
  lemma ExtractTwiceConsumes(msg: string, init: string) returns (head: string)
    requires |Words(msg)| >= 2
    ensures msg == head + ExtractTwice(msg, init).0.rest
    ensures Words(head) == Words(msg)[..2]
    ensures head != [] && !IsSpace(head[|head| - 1])
  {
    var first := ExtractWord(Over(msg));
    var h1 := ExtractWordConsumes(Over(msg));
    var h2 := ExtractWordConsumes(first.st);
    head := h1 + h2;
    assert head[|head| - 1] == h2[|h2| - 1];
    assert msg == head + ExtractWord(first.st).st.rest by {
      AppendAssoc(h1, h2, ExtractWord(first.st).st.rest);
    }
    assert Words(head) == Words(msg)[..2] by {
      FirstExtracted(msg);
      SecondExtracted(msg);
      TakeTwo(Words(msg));
      AppendPair(Words(msg)[0], Words(msg)[1]);
      WordsConcat(h1, h2);
    }
  }

  lemma FirstExtracted(msg: string)
    requires Words(msg) != []
    ensures ExtractWord(Over(msg)).value == Some(Words(msg)[0])
  {
  }

  /** An extraction from a stream that is not failed and still holds a word. */
  lemma ExtractNext(st: Stream)
    requires !st.fail && (st.eof <==> st.rest == []) && Words(st.rest) != []
    ensures ExtractWord(st).value == Some(Words(st.rest)[0])
    ensures Words(ExtractWord(st).st.rest) == Words(st.rest)[1..]
    ensures !ExtractWord(st).st.fail && (ExtractWord(st).st.eof <==> ExtractWord(st).st.rest == [])
  {
  }

  lemma SecondExtracted(msg: string)
    requires |Words(msg)| >= 2
    ensures var second := ExtractWord(ExtractWord(Over(msg)).st);
            && second.value == Some(Words(msg)[1])
            && Words(second.st.rest) == Words(msg)[2..]
            && !second.st.fail && (second.st.eof <==> second.st.rest == [])
  {
    ExtractNext(Over(msg));
    DropOne(Words(msg));
    ExtractNext(ExtractWord(Over(msg)).st);
  }

  lemma FewerThanTwoExtracted(msg: string)
    requires |Words(msg)| < 2
    ensures var first := ExtractWord(Over(msg));
            var second := ExtractWord(first.st);
            && (Words(msg) == [] ==> first.value.None?)
            && (Words(msg) != [] ==> first.value == Some(Words(msg)[0]))
            && second.value.None? && !second.st.Good()
  {
    var first := ExtractWord(Over(msg));
    if Words(msg) != [] {
      assert Words(first.st.rest) == [];
    }
  }

  /** Leading whitespace does not change the words. */
  lemma {:induction false} WordsSkipSpace(s: string)
    ensures Words(SkipSpace(s)) == Words(s)
  {
    if s != [] && IsSpace(s[0]) {
      WordsSkipSpace(s[1..]);
    }
  }

  /** A string that starts with a non-space starts with its leading word. */
  lemma {:induction false} WordsAtWord(t: string)
    requires t != [] && !IsSpace(t[0])
    ensures Words(t) == [LeadingWord(t)] + Words(t[|LeadingWord(t)|..])
  {
    var w := LeadingWord(t);
    if |t| > 1 && !IsSpace(t[1]) {
      WordsAtWord(t[1..]);
      assert t[1..][|LeadingWord(t[1..])|..] == t[|w|..];
    } else {
      assert w == [t[0]];
    }
  }

  /**
   * The characters one word extraction consumes, the skipped whitespace and
   * the word itself, hold exactly that word.
   */
  lemma ExtractedPrefix(s: string, t: string, w: string)
    requires t == SkipSpace(s) && t != [] && !IsSpace(t[0]) && w == LeadingWord(t)
    ensures |s| - |t| <= |s| && |w| <= |t|
    ensures s == s[..|s| - |t|] + w + t[|w|..]
    ensures Words(s[..|s| - |t|] + w) == [w]
  {
    TakeDrop(t, |w|);
    TakeDrop(s, |s| - |t|);
    AppendAssoc(s[..|s| - |t|], w, t[|w|..]);
    SpaceThenWord(s[..|s| - |t|], w);
  }

  /** Whitespace followed by one word holds just that word. */
  lemma SpaceThenWord(a: string, w: string)
    requires forall i :: 0 <= i < |a| ==> IsSpace(a[i])
    requires IsWord(w)
    ensures Words(a + w) == [w]
  {
    SkipSpaceAppend(a, w);
    WordsSkipSpace(a + w);
    WordsOfWord(w);
  }

  lemma WordsOfWord(w: string)
    requires IsWord(w)
    ensures Words(w) == [w]
  {
    LeadingWordOfWord(w);
    WordsAtWord(w);
    assert w[|w|..] == [];
  }

  /** Whitespace in front of a string that does not start with whitespace is all that is skipped. */
  lemma {:induction false} SkipSpaceAppend(a: string, b: string)
    requires forall i :: 0 <= i < |a| ==> IsSpace(a[i])
    requires b == [] || !IsSpace(b[0])
    ensures SkipSpace(a + b) == b
  {
    if a == [] {
      assert a + b == b;
    } else {
      assert (a + b)[0] == a[0] && (a + b)[1..] == a[1..] + b;
      SkipSpaceAppend(a[1..], b);
    }
  }

  lemma {:induction false} LeadingWordOfWord(w: string)
    requires forall i :: 0 <= i < |w| ==> !IsSpace(w[i])
    ensures LeadingWord(w) == w
  {
    if w != [] {
      LeadingWordOfWord(w[1..]);
    }
  }
}
