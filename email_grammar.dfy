/** The address grammar Email checks, the pattern
      ^\w+([-+.']\w+)*@\w+([-.]\w+)*\.\w+([-.]\w+)*$
    first read literally as a regular expression (ghost predicates whose
    shape follows the pattern), then as an executable characterisation in
    terms of "segments", with a proof that the two agree. */
module EmailGrammar {

  /** \w, restricted to ASCII: letters, digits and the underscore. */
  predicate IsWordChar(c: char) {
    ('a' <= c <= 'z') || ('A' <= c <= 'Z') || ('0' <= c <= '9') || c == '_'
  }

  /** The separators allowed between word runs before the '@': [-+.'] */
  const LocalSeparators: set<char> := {'-', '+', '.', '\''}

  /** The separators allowed between word runs after the '@': [-.] */
  const DomainSeparators: set<char> := {'-', '.'}

  // ---------------------------------------------------------------------
  // The pattern, read as a regular expression
  // ---------------------------------------------------------------------

  /** \w+ */
  ghost predicate WordRun(s: string) {
    |s| > 0 && forall i :: 0 <= i < |s| ==> IsWordChar(s[i])
  }

  /** ([seps]\w+)* : zero or more groups, each one separator followed by a
      word run. */
  ghost predicate Groups(s: string, seps: set<char>)
    decreases |s|
  {
    s == [] ||
    (s[0] in seps && exists k :: 2 <= k <= |s| && WordRun(s[1..k]) && Groups(s[k..], seps))
  }

  /** \w+([seps]\w+)* */
  ghost predicate Dotted(s: string, seps: set<char>) {
    exists k :: 1 <= k <= |s| && WordRun(s[..k]) && Groups(s[k..], seps)
  }

  /** The pattern between ^ and $ matches all of s: a local part, '@', a
      domain head, a literal '.', and a domain tail. */
  ghost predicate FullMatch(s: string) {
    exists i, j :: 0 <= i < j < |s| && s[i] == '@' && s[j] == '.'
      && Dotted(s[..i], LocalSeparators)
      && Dotted(s[i + 1..j], DomainSeparators)
      && Dotted(s[j + 1..], DomainSeparators)
  }

  /** Regex.IsMatch for the anchored pattern with no options: ^ matches only at
      the start, and $ at the end or just before a final line feed. */
  ghost predicate IsMatch(s: string) {
    FullMatch(s) || (|s| > 0 && s[|s| - 1] == '\n' && FullMatch(s[..|s| - 1]))
  }

  // ---------------------------------------------------------------------
  // The executable characterisation
  // ---------------------------------------------------------------------

  /** s is made of word characters and separators, starts and ends with a
      word character, and never has two non-word characters side by side. */
  predicate Segmented(s: string, seps: set<char>) {
    && |s| > 0 && IsWordChar(s[0]) && IsWordChar(s[|s| - 1])
    && (forall i :: 0 <= i < |s| ==> IsWordChar(s[i]) || s[i] in seps)
    && (forall i :: 0 < i < |s| ==> WordBeside(s, i))
  }

  /** At least one of s[i - 1] and s[i] is a word character. */
  predicate WordBeside(s: string, i: nat)
    requires 0 < i < |s|
  {
    IsWordChar(s[i - 1]) || IsWordChar(s[i])
  }

  /** A segmented local part, '@', and a segmented domain holding a '.'. */
  predicate IsAddress(s: string) {
    exists i :: 0 <= i < |s| && s[i] == '@'
      && Segmented(s[..i], LocalSeparators)
      && Segmented(s[i + 1..], DomainSeparators)
      && '.' in s[i + 1..]
  }

  // ---------------------------------------------------------------------
  // The two readings agree
  // ---------------------------------------------------------------------

  /** The number of leading word characters of s. */
  function WordPrefix(s: string): (n: nat)
    ensures n <= |s|
    ensures forall i :: 0 <= i < n ==> IsWordChar(s[i])
    ensures n < |s| ==> !IsWordChar(s[n])
  {
    if s != [] && IsWordChar(s[0]) then 1 + WordPrefix(s[1..]) else 0
  }

  /** Two segmented strings joined by one separator form a segmented string. */
  lemma SegmentedJoin(a: string, c: char, b: string, seps: set<char>)
    requires Segmented(a, seps) && c in seps && Segmented(b, seps)
    ensures Segmented(a + [c] + b, seps)
  {
    var s := a + [c] + b;
    forall i | 0 < i < |s|
      ensures WordBeside(s, i)
    {
      if i < |a| {
        assert WordBeside(a, i);
        assert s[i - 1] == a[i - 1] && s[i] == a[i];
      } else if i == |a| {
        assert s[i - 1] == a[|a| - 1];
      } else if i == |a| + 1 {
        assert s[i] == b[0];
      } else {
        assert WordBeside(b, i - |a| - 1);
        assert s[i - 1] == b[i - 1 - |a| - 1] && s[i] == b[i - |a| - 1];
      }
    }
    forall i | 0 <= i < |s|
      ensures IsWordChar(s[i]) || s[i] in seps
    {
      if i < |a| {
        assert s[i] == a[i];
      } else if i > |a| {
        assert s[i] == b[i - |a| - 1];
      }
    }
  }

  /** Cutting a segmented string at a non-word character leaves two
      segmented strings. */
  lemma SegmentedSplit(s: string, m: nat, seps: set<char>)
    requires Segmented(s, seps) && m < |s| && !IsWordChar(s[m])
    ensures 0 < m < |s| - 1
    ensures Segmented(s[..m], seps) && Segmented(s[m + 1..], seps)
  {
    assert WordBeside(s, m) && WordBeside(s, m + 1);
    var a, b := s[..m], s[m + 1..];
    forall i | 0 < i < |a|
      ensures WordBeside(a, i)
    {
      assert WordBeside(s, i);
    }
    forall i | 0 < i < |b|
      ensures WordBeside(b, i)
    {
      assert WordBeside(s, m + 1 + i);
    }
  }

  /** A segmented string matches \w+([seps]\w+)*. */
  lemma {:induction false} SegmentedToDotted(s: string, seps: set<char>)
    requires Segmented(s, seps)
    ensures Dotted(s, seps)
    decreases |s|
  {
    var k := WordPrefix(s);
    assert WordRun(s[..k]);
    if k == |s| {
      assert Groups(s[k..], seps);
    } else {
      SegmentedSplit(s, k, seps);
      var rest := s[k + 1..];
      SegmentedToDotted(rest, seps);
      var j :| 1 <= j <= |rest| && WordRun(rest[..j]) && Groups(rest[j..], seps);
      var g := s[k..];
      assert g[1..j + 1] == rest[..j];
      assert g[j + 1..] == rest[j..];
      assert Groups(g, seps);
    }
  }

  /** A non-empty match of ([seps]\w+)* is a separator followed by a
      segmented string. */
  lemma {:induction false} GroupsToSegmented(s: string, seps: set<char>)
    requires Groups(s, seps) && s != []
    ensures s[0] in seps && Segmented(s[1..], seps)
    decreases |s|
  {
    var k :| 2 <= k <= |s| && WordRun(s[1..k]) && Groups(s[k..], seps);
    if k == |s| {
      assert s[1..] == s[1..k];
    } else {
      GroupsToSegmented(s[k..], seps);
      assert s[k..][1..] == s[k + 1..];
      SegmentedJoin(s[1..k], s[k], s[k + 1..], seps);
      assert s[1..] == s[1..k] + [s[k]] + s[k + 1..];
    }
  }

  /** A match of \w+([seps]\w+)* is segmented. */
  lemma DottedToSegmented(s: string, seps: set<char>)
    requires Dotted(s, seps)
    ensures Segmented(s, seps)
  {
    var k :| 1 <= k <= |s| && WordRun(s[..k]) && Groups(s[k..], seps);
    if k == |s| {
      assert s == s[..k];
    } else {
      GroupsToSegmented(s[k..], seps);
      assert s[k..][1..] == s[k + 1..];
      SegmentedJoin(s[..k], s[k], s[k + 1..], seps);
      assert s == s[..k] + [s[k]] + s[k + 1..];
    }
  }

  /** The executable reading of \w+([seps]\w+)* is exact. */
  lemma SegmentedIffDotted(s: string, seps: set<char>)
    ensures Segmented(s, seps) <==> Dotted(s, seps)
  {
    if Segmented(s, seps) {
      SegmentedToDotted(s, seps);
    }
    if Dotted(s, seps) {
      DottedToSegmented(s, seps);
    }
  }

  /** Every address the executable check accepts matches the pattern. */
  lemma AddressToFullMatch(s: string)
    requires IsAddress(s)
    ensures FullMatch(s)
  {
    var i :| 0 <= i < |s| && s[i] == '@'
      && Segmented(s[..i], LocalSeparators)
      && Segmented(s[i + 1..], DomainSeparators)
      && '.' in s[i + 1..];
    var d := s[i + 1..];
    var m :| 0 <= m < |d| && d[m] == '.';
    SegmentedSplit(d, m, DomainSeparators);
    var j := i + 1 + m;
    assert s[i + 1..j] == d[..m];
    assert s[j + 1..] == d[m + 1..];
    SegmentedToDotted(s[..i], LocalSeparators);
    SegmentedToDotted(d[..m], DomainSeparators);
    SegmentedToDotted(d[m + 1..], DomainSeparators);
    assert s[j] == '.';
  }

  /** A segmented local part, '@', and two segmented domain pieces joined by
      '.' form an address. */
  lemma AssembleAddress(local: string, head: string, tail: string)
    requires Segmented(local, LocalSeparators)
    requires Segmented(head, DomainSeparators) && Segmented(tail, DomainSeparators)
    ensures IsAddress(local + ['@'] + head + ['.'] + tail)
  {
    SegmentedJoin(head, '.', tail, DomainSeparators);
    var d := head + ['.'] + tail;
    var s := local + ['@'] + d;
    assert s == local + ['@'] + head + ['.'] + tail;
    assert d[|head|] == '.';
    var i := |local|;
    assert s[..i] == local && s[i + 1..] == d && s[i] == '@';
  }

  /** A match of the pattern split at its '@' (index i) and at the literal
      '.' (index j) passes the executable check. */
  lemma SplitMatchToAddress(s: string, i: nat, j: nat)
    requires i < j < |s| && s[i] == '@' && s[j] == '.'
    requires Dotted(s[..i], LocalSeparators)
    requires Dotted(s[i + 1..j], DomainSeparators) && Dotted(s[j + 1..], DomainSeparators)
    ensures IsAddress(s)
  {
    var local, head, tail := s[..i], s[i + 1..j], s[j + 1..];
    assert s == local + ['@'] + head + ['.'] + tail;
    DottedToSegmented(local, LocalSeparators);
    DottedToSegmented(head, DomainSeparators);
    DottedToSegmented(tail, DomainSeparators);
    AssembleAddress(local, head, tail);
  }

  /** Every full match of the pattern passes the executable check. */
  lemma FullMatchToAddress(s: string)
    requires FullMatch(s)
    ensures IsAddress(s)
  {
    var i, j :| 0 <= i < j < |s| && s[i] == '@' && s[j] == '.'
      && Dotted(s[..i], LocalSeparators)
      && Dotted(s[i + 1..j], DomainSeparators)
      && Dotted(s[j + 1..], DomainSeparators);
    SplitMatchToAddress(s, i, j);
  }

  /** The executable address check accepts exactly the strings the pattern
      matches in full. */
  lemma AddressIffFullMatch(s: string)
    ensures IsAddress(s) <==> FullMatch(s)
  {
    if IsAddress(s) {
      AddressToFullMatch(s);
    }
    if FullMatch(s) {
      FullMatchToAddress(s);
    }
  }

  /** An address has exactly one '@': neither separator set contains it. */
  lemma AddressHasOneAt(s: string, i: nat, i': nat)
    requires IsAddress(s)
    requires i < |s| && i' < |s| && s[i] == '@' && s[i'] == '@'
    ensures i == i'
  {
    var k :| 0 <= k < |s| && s[k] == '@'
      && Segmented(s[..k], LocalSeparators)
      && Segmented(s[k + 1..], DomainSeparators)
      && '.' in s[k + 1..];
    forall n | 0 <= n < k
      ensures s[n] != '@'
    {
      assert s[n] == s[..k][n];
    }
    forall n | k < n < |s|
      ensures s[n] != '@'
    {
      assert s[n] == s[k + 1..][n - k - 1];
    }
  }
}
