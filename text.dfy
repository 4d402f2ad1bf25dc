/**
 * Character and string helpers shared by the broker and by the tutorial
 * publisher/subscriber pair: C-locale whitespace, `std::string::find`, and the
 * whitespace-separated words that repeated `operator>>` extractions yield.
 */
module Text {

  datatype Option<T> = None | Some(value: T) {
    function GetOr(default: T): T {
      if Some? then value else default
    }
  }

  /** `isspace` in the "C" locale: space, \t, \n, \v, \f, \r. */
  predicate IsSpace(c: char) {
    c == ' ' || c == '\t' || c == '\n' || c == '\U{0B}' || c == '\U{0C}' || c == '\r'
  }

  predicate StartsWith(s: string, prefix: string) {
    |prefix| <= |s| && s[..|prefix|] == prefix
  }

  /** `pat` occurs in `s` starting at position `i`. */
  predicate OccursAt(s: string, pat: string, i: nat) {
    i + |pat| <= |s| && s[i..i + |pat|] == pat
  }

  /**
   * `s.find(pat, from)`: the lowest position at or after `from` where `pat`
   * occurs; `None` plays the part of `npos`.
   */
  function FindFrom(s: string, pat: string, from: nat): (r: Option<nat>)
    decreases |s| - from
    ensures r.Some? ==> from <= r.value && OccursAt(s, pat, r.value)
    ensures r.Some? ==> forall j :: from <= j < r.value ==> !OccursAt(s, pat, j)
    ensures r.None? ==> forall j :: from <= j ==> !OccursAt(s, pat, j)
  {
    if from + |pat| > |s| then None
    else if s[from..from + |pat|] == pat then Some(from)
    else FindFrom(s, pat, from + 1)
  }

  /** `s.find(pat)`: the lowest position where `pat` occurs, or `npos`. */
  function Find(s: string, pat: string): (r: Option<nat>)
    ensures r.Some? ==> OccursAt(s, pat, r.value) && forall j :: 0 <= j < r.value ==> !OccursAt(s, pat, j)
    ensures r.None? ==> forall j :: 0 <= j ==> !OccursAt(s, pat, j)
  {
    FindFrom(s, pat, 0)
  }

  /** The test `msg.find(pat) == 0` holds exactly when `pat` is a prefix of `msg`. */
  lemma FoundAtStartIffPrefix(s: string, pat: string)
    ensures Find(s, pat) == Some(0) <==> StartsWith(s, pat)
  {
    if StartsWith(s, pat) {
      assert OccursAt(s, pat, 0);
    }
  }

  // Small sequence facts, stated on their own so that proofs about words need
  // not rediscover them in a crowded context.

  lemma TakeTwo<T>(s: seq<T>)
    requires |s| >= 2
    ensures s[..2] == [s[0], s[1]]
  {
  }

  lemma DropOne<T>(s: seq<T>)
    requires |s| >= 2
    ensures s[1..][0] == s[1] && s[1..][1..] == s[2..]
  {
  }

  lemma AppendPair<T>(a: T, b: T)
    ensures [a] + [b] == [a, b]
  {
  }

  lemma TakeDrop<T>(s: seq<T>, i: nat)
    requires i <= |s|
    ensures s[..i] + s[i..] == s
  {
  }

  lemma AppendAssoc<T>(a: seq<T>, b: seq<T>, c: seq<T>)
    ensures a + (b + c) == (a + b) + c
  {
  }

  /** A word: a non-empty run of non-whitespace characters. */
  predicate IsWord(w: string) {
    w != [] && forall i :: 0 <= i < |w| ==> !IsSpace(w[i])
  }

  /**
   * The whitespace-separated words of `s`, in order, defined character by
   * character: a non-space character either starts a new word or, when the
   * next character is also a non-space, is glued to the front of the word the
   * rest of the string begins with.
   */
  function Words(s: string): (ws: seq<string>)
    ensures s != [] && !IsSpace(s[0]) ==> ws != [] && StartsWith(ws[0], [s[0]])
    ensures forall i :: 0 <= i < |ws| ==> IsWord(ws[i])
  {
    if s == [] then []
    else if IsSpace(s[0]) then Words(s[1..])
    else
      var rest := Words(s[1..]);
      if |s| > 1 && !IsSpace(s[1]) then [[s[0]] + rest[0]] + rest[1..]
      else [[s[0]]] + rest
  }

  /** Words do not straddle a boundary where the right-hand part begins with whitespace. */
  lemma {:induction false} WordsConcat(a: string, b: string)
    requires b == [] || IsSpace(b[0])
    ensures Words(a + b) == Words(a) + Words(b)
  {
    if a == [] {
      assert a + b == b;
      return;
    }
    var ab := a + b;
    assert ab[0] == a[0] && ab[1..] == a[1..] + b;
    WordsConcat(a[1..], b);
    if IsSpace(a[0]) {
      return;
    }
    var ra, rb := Words(a[1..]), Words(b);
    if |a| > 1 && !IsSpace(a[1]) {
      // the first character of `a` is glued to the first word of `a[1..]`
      assert ab[1] == a[1] && ra != [];
      assert (ra + rb)[0] == ra[0] && (ra + rb)[1..] == ra[1..] + rb;
      AppendAssoc([[a[0]] + ra[0]], ra[1..], rb);
    } else {
      // the first character of `a` is a word of its own
      assert |ab| > 1 ==> IsSpace(ab[1]);
      AppendAssoc([[a[0]]], ra, rb);
    }
  }
}
