/**
 * The e-mail pattern shared by the backend validators and the signup form:
 *
 *     ^[\w-]+(\.[\w-]+)*@([\w-]+\.)+[a-zA-Z]{2,7}$
 *
 * where `\w` (no `u` flag) is `[A-Za-z0-9_]`.  The module gives the pattern's
 * language declaratively (MatchesPattern, by its regular-expression groups) and a
 * hand-written recogniser (IsValidEmail, by splitting on '@' and '.'), and proves
 * that the two agree on every string.
 */
module EmailPattern {

  /** The class `[\w-]`. */
  predicate IsWordChar(c: char) {
    ('A' <= c <= 'Z') || ('a' <= c <= 'z') || ('0' <= c <= '9') || c == '_' || c == '-'
  }

  /** The class `[a-zA-Z]`. */
  predicate IsLetter(c: char) {
    ('A' <= c <= 'Z') || ('a' <= c <= 'z')
  }

  /** `[\w-]+` */
  predicate IsWord(s: string) {
    |s| > 0 && forall i :: 0 <= i < |s| ==> IsWordChar(s[i])
  }

  /** `[a-zA-Z]{2,7}`, the final label of the domain. */
  predicate IsTld(s: string) {
    2 <= |s| <= 7 && forall i :: 0 <= i < |s| ==> IsLetter(s[i])
  }

  predicate AllWords(parts: seq<string>) {
    forall k :: 0 <= k < |parts| ==> IsWord(parts[k])
  }

  /** The parts written one after the other with `sep` between neighbours. */
  function Join(parts: seq<string>, sep: char): string
    requires |parts| > 0
  {
    if |parts| == 1 then parts[0] else parts[0] + [sep] + Join(parts[1..], sep)
  }

  /** `([\w-]+\.)+` read as its list of labels: each label followed by a dot. */
  function Terminated(labels: seq<string>): string {
    if labels == [] then [] else labels[0] + "." + Terminated(labels[1..])
  }

  /**
   * The pieces of `s` between occurrences of `sep` (JavaScript's `s.split(sep)`):
   * never empty, no piece holds `sep`, and joining the pieces gives `s` back.
   */
  function Split(s: string, sep: char): (parts: seq<string>)
    ensures |parts| > 0
    ensures forall k :: 0 <= k < |parts| ==> sep !in parts[k]
    ensures Join(parts, sep) == s
  {
    if s == [] then [[]]
    else
      var rest := Split(s[1..], sep);
      if s[0] == sep then
        assert ([[]] + rest)[1..] == rest;
        [[]] + rest
      else
        var parts := [[s[0]] + rest[0]] + rest[1..];
        assert parts[1..] == rest[1..];
        assert s == [s[0]] + s[1..];
        parts
  }

  // ---------------------------------------------------------------------------
  // The declarative pattern

  /** `e` is `locals` joined by dots, then `@`, then each of `labels` followed by a dot, then `tld`. */
  ghost predicate Decomposes(e: string, locals: seq<string>, labels: seq<string>, tld: string) {
    && |locals| > 0 && AllWords(locals)
    && |labels| > 0 && AllWords(labels)
    && IsTld(tld)
    && e == Join(locals, '.') + "@" + Terminated(labels) + tld
  }

  /** The language of the pattern, group by group. */
  ghost predicate MatchesPattern(e: string) {
    exists locals, labels, tld :: Decomposes(e, locals, labels, tld)
  }

  // ---------------------------------------------------------------------------
  // The recogniser

  /** `[\w-]+(\.[\w-]+)*`: every dot-separated piece is a non-empty word. */
  predicate IsDotAtom(s: string) {
    AllWords(Split(s, '.'))
  }

  /** `([\w-]+\.)+[a-zA-Z]{2,7}`: at least two dot-separated pieces, words before the last, letters last. */
  predicate IsDomain(d: string) {
    var labels := Split(d, '.');
    && |labels| >= 2
    && AllWords(labels[..|labels| - 1])
    && IsTld(labels[|labels| - 1])
  }

  /** The validator: exactly one `@`, a dot-atom before it and a domain after it. */
  predicate IsValidEmail(e: string) {
    var parts := Split(e, '@');
    |parts| == 2 && IsDotAtom(parts[0]) && IsDomain(parts[1])
  }

  // ---------------------------------------------------------------------------
  // Split and Join are inverse

  lemma {:induction false} SplitWithout(s: string, sep: char)
    requires sep !in s
    ensures Split(s, sep) == [s]
  {
    if s != [] {
      SplitWithout(s[1..], sep);
    }
  }

  lemma {:induction false} SplitAfter(x: string, t: string, sep: char)
    requires sep !in x
    ensures Split(x + [sep] + t, sep) == [x] + Split(t, sep)
  {
    if x == [] {
      assert x + [sep] + t == [sep] + t;
    } else {
      var s := x + [sep] + t;
      assert s[0] == x[0] && s[1..] == x[1..] + [sep] + t;
      SplitAfter(x[1..], t, sep);
      var rest := Split(s[1..], sep);
      assert rest[0] == x[1..] && rest[1..] == Split(t, sep);
      assert [x[0]] + x[1..] == x;
    }
  }

  /** Splitting a join of separator-free parts gives the parts back. */
  lemma {:induction false} SplitJoin(parts: seq<string>, sep: char)
    requires |parts| > 0
    requires forall k :: 0 <= k < |parts| ==> sep !in parts[k]
    ensures Split(Join(parts, sep), sep) == parts
  {
    if |parts| == 1 {
      SplitWithout(parts[0], sep);
    } else {
      SplitJoin(parts[1..], sep);
      SplitAfter(parts[0], Join(parts[1..], sep), sep);
      assert [parts[0]] + parts[1..] == parts;
    }
  }

  lemma {:induction false} TerminatedJoin(labels: seq<string>, tld: string)
    ensures Terminated(labels) + tld == Join(labels + [tld], '.')
  {
    if labels != [] {
      TerminatedJoin(labels[1..], tld);
      assert (labels + [tld])[1..] == labels[1..] + [tld];
    }
  }

  /** A character that occurs in no part, and is not the separator, does not occur in the join. */
  lemma {:induction false} JoinAvoids(parts: seq<string>, sep: char, c: char)
    requires |parts| > 0 && c != sep
    requires forall k :: 0 <= k < |parts| ==> c !in parts[k]
    ensures c !in Join(parts, sep)
  {
    if |parts| > 1 {
      JoinAvoids(parts[1..], sep, c);
    }
  }

  lemma WordsAvoid(parts: seq<string>, c: char)
    requires AllWords(parts) && !IsWordChar(c)
    ensures forall k :: 0 <= k < |parts| ==> c !in parts[k]
  {
  }

  lemma TldAvoids(tld: string, c: char)
    requires IsTld(tld) && !IsLetter(c)
    ensures c !in tld
  {
  }

  // ---------------------------------------------------------------------------
  // The recogniser decides the pattern

  lemma RecogniserSound(e: string)
    requires IsValidEmail(e)
    ensures MatchesPattern(e)
  {
    var parts := Split(e, '@');
    var locals := Split(parts[0], '.');
    var all := Split(parts[1], '.');
    var labels, tld := all[..|all| - 1], all[|all| - 1];
    assert all == labels + [tld];
    TerminatedJoin(labels, tld);
    assert Join(parts, '@') == e;
    assert Join(parts[1..], '@') == parts[1];
    assert e == parts[0] + "@" + parts[1];
    assert Decomposes(e, locals, labels, tld);
  }

  lemma RecogniserComplete(e: string, locals: seq<string>, labels: seq<string>, tld: string)
    requires Decomposes(e, locals, labels, tld)
    ensures IsValidEmail(e)
  {
    var all := labels + [tld];
    assert all[..|all| - 1] == labels;
    var local, domain := Join(locals, '.'), Join(all, '.');
    TerminatedJoin(labels, tld);
    WordsAvoid(locals, '@');
    WordsAvoid(locals, '.');
    WordsAvoid(labels, '@');
    WordsAvoid(labels, '.');
    TldAvoids(tld, '@');
    TldAvoids(tld, '.');
    assert forall k :: 0 <= k < |all| ==> '@' !in all[k] && '.' !in all[k];
    JoinAvoids(locals, '.', '@');
    JoinAvoids(all, '.', '@');
    SplitJoin([local, domain], '@');
    assert Join([local, domain], '@') == e;
    SplitJoin(locals, '.');
    SplitJoin(all, '.');
  }

  /** The recogniser accepts exactly the strings the pattern matches. */
  lemma IsValidEmailCorrect(e: string)
    ensures IsValidEmail(e) <==> MatchesPattern(e)
  {
    if IsValidEmail(e) {
      RecogniserSound(e);
    }
    if MatchesPattern(e) {
      var locals, labels, tld :| Decomposes(e, locals, labels, tld);
      RecogniserComplete(e, locals, labels, tld);
    }
  }
}
