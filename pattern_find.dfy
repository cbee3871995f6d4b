/** `Regex.find` for the three patterns the audit-log command uses: a literal key followed by
    one capture group `(c+)` of a single character class, `\d` or `[^,]`. The match is the
    leftmost one, and the group is greedy: it runs to the first character outside the class. */
module PatternFind {
  import opened Wrappers
  import opened Text

  /** The two character classes: `\d` (ASCII digits, as in Java's default) and `[^,]`. */
  datatype CharClass = Digit | NotComma

  predicate InClass(cls: CharClass, c: char) {
    match cls
    case Digit => IsDigit(c)
    case NotComma => c != ','
  }

  predicate AllIn(cls: CharClass, s: string) {
    forall i :: 0 <= i < |s| ==> InClass(cls, s[i])
  }

  /** The greedy group: the longest prefix of `s` inside the class. */
  function Run(s: string, cls: CharClass): (r: string)
    ensures |r| <= |s| && r == s[..|r|]
    ensures AllIn(cls, r)
    ensures |r| < |s| ==> !InClass(cls, s[|r|])
  {
    if s == [] || !InClass(cls, s[0]) then [] else [s[0]] + Run(s[1..], cls)
  }

  predicate StartsWith(s: string, w: string) {
    |w| <= |s| && s[..|w|] == w
  }

  /** The pattern matches at position i: the key, then at least one class character. */
  predicate MatchAt(s: string, key: string, cls: CharClass, i: int) {
    0 <= i && i + |key| < |s| && s[i..i + |key|] == key && InClass(cls, s[i + |key|])
  }

  /** `Regex(key + "(" + cls + "+)").find(s)?.groupValues?.get(1)`. */
  function Find(s: string, key: string, cls: CharClass): Option<string>
    decreases |s|
  {
    if |s| <= |key| then None
    else if StartsWith(s, key) && InClass(cls, s[|key|]) then Some(Run(s[|key|..], cls))
    else Find(s[1..], key, cls)
  }

  lemma MatchAtShift(s: string, key: string, cls: CharClass, i: int)
    requires s != [] && 0 <= i
    ensures MatchAt(s, key, cls, i + 1) <==> MatchAt(s[1..], key, cls, i)
  {
    if i + 1 + |key| < |s| {
      var a, b := s[i + 1..i + 1 + |key|], s[1..][i..i + |key|];
      assert |a| == |b|;
      forall k | 0 <= k < |a| ensures a[k] == b[k] {
        assert a[k] == s[i + 1 + k];
        assert b[k] == s[1..][i + k];
      }
      assert a == b;
      assert s[i + 1 + |key|] == s[1..][i + |key|];
    }
  }

  /** Find reports the group of the leftmost position where the pattern matches, and nothing
      when it matches nowhere. */
  lemma {:induction false} FindIsLeftmost(s: string, key: string, cls: CharClass)
    ensures Find(s, key, cls).None? <==> forall i :: 0 <= i < |s| ==> !MatchAt(s, key, cls, i)
    ensures Find(s, key, cls).Some? ==>
              exists i :: MatchAt(s, key, cls, i) && (forall j :: 0 <= j < i ==> !MatchAt(s, key, cls, j)) &&
                          Find(s, key, cls).value == Run(s[i + |key|..], cls)
    decreases |s|
  {
    if |s| <= |key| {
    } else if StartsWith(s, key) && InClass(cls, s[|key|]) {
      assert MatchAt(s, key, cls, 0);
    } else {
      assert !MatchAt(s, key, cls, 0);
      FindIsLeftmost(s[1..], key, cls);
      forall i | 0 <= i < |s[1..]| ensures MatchAt(s, key, cls, i + 1) <==> MatchAt(s[1..], key, cls, i) {
        MatchAtShift(s, key, cls, i);
      }
      if Find(s[1..], key, cls).Some? {
        var i :| MatchAt(s[1..], key, cls, i) && (forall j :: 0 <= j < i ==> !MatchAt(s[1..], key, cls, j)) &&
                 Find(s[1..], key, cls).value == Run(s[1..][i + |key|..], cls);
        MatchAtShift(s, key, cls, i);
        forall j | 0 <= j < i + 1 ensures !MatchAt(s, key, cls, j) {
          if j > 0 {
            MatchAtShift(s, key, cls, j - 1);
          }
        }
        assert s[1..][i + |key|..] == s[i + 1 + |key|..];
      } else {
        forall i | 0 <= i < |s| ensures !MatchAt(s, key, cls, i) {
          if i > 0 {
            MatchAtShift(s, key, cls, i - 1);
          }
        }
      }
    }
  }

  /** No occurrence of the key starts inside `a` when `b` follows it. */
  predicate Misses(a: string, b: string, key: string)
    decreases |a|
  {
    a == [] || (!StartsWith(a + b, key) && Misses(a[1..], b, key))
  }

  /** A text in which no occurrence of the key starts is skipped over by the search. */
  lemma {:induction false} FindSkips(a: string, b: string, key: string, cls: CharClass)
    requires Misses(a, b, key)
    ensures Find(a + b, key, cls) == Find(b, key, cls)
    decreases |a|
  {
    if a == [] {
      assert a + b == b;
    } else {
      assert (a + b)[1..] == a[1..] + b;
      FindSkips(a[1..], b, key, cls);
    }
  }

  /** No occurrence starts inside `a` if the key's m-th character occurs neither in `a` nor
      in the first m characters of what follows. */
  lemma {:induction false} MissesByChar(a: string, b: string, key: string, m: nat)
    requires m < |key|
    requires forall j :: 0 <= j < |a| ==> a[j] != key[m]
    requires forall j :: 0 <= j < m && j < |b| ==> b[j] != key[m]
    ensures Misses(a, b, key)
    decreases |a|
  {
    if a != [] {
      if m < |a| + |b| {
        if m < |a| {
          assert (a + b)[m] == a[m];
        } else {
          assert (a + b)[m] == b[m - |a|];
        }
        assert (a + b)[m] != key[m];
      }
      assert !StartsWith(a + b, key);
      forall j | 0 <= j < |a[1..]| ensures a[1..][j] != key[m] {
        assert a[1..][j] == a[j + 1];
      }
      MissesByChar(a[1..], b, key, m);
    }
  }

  lemma {:induction false} MissesConcat(a1: string, a2: string, b: string, key: string)
    requires Misses(a1, a2 + b, key) && Misses(a2, b, key)
    ensures Misses(a1 + a2, b, key)
    decreases |a1|
  {
    if a1 == [] {
      assert a1 + a2 == a2;
    } else {
      assert (a1 + a2) + b == a1 + (a2 + b);
      assert (a1 + a2)[1..] == a1[1..] + a2;
      MissesConcat(a1[1..], a2, b, key);
    }
  }

  /** A group that fills `a` stops at the first character after it outside the class. */
  lemma {:induction false} RunStops(a: string, b: string, cls: CharClass)
    requires AllIn(cls, a)
    requires b == [] || !InClass(cls, b[0])
    ensures Run(a + b, cls) == a
    decreases |a|
  {
    if a == [] {
      assert a + b == b;
    } else {
      assert (a + b)[0] == a[0];
      assert (a + b)[1..] == a[1..] + b;
      RunStops(a[1..], b, cls);
      assert a == [a[0]] + a[1..];
    }
  }

  /** The key at the front, then a group character: the match is right there. */
  lemma FindAtFront(key: string, rest: string, cls: CharClass)
    requires rest != [] && InClass(cls, rest[0])
    ensures Find(key + rest, key, cls) == Some(Run(rest, cls))
  {
    var s := key + rest;
    assert s[..|key|] == key;
    assert s[|key|..] == rest;
  }

  /** A key that first occurs after `front`, followed by a whole group and then a character
      outside the class: the group is what is found. */
  lemma FindAfter(front: string, key: string, group: string, tail: string, cls: CharClass)
    requires Misses(front, key + (group + tail), key)
    requires group != [] && AllIn(cls, group)
    requires tail == [] || !InClass(cls, tail[0])
    ensures Find(front + (key + (group + tail)), key, cls) == Some(group)
  {
    FindSkips(front, key + (group + tail), key, cls);
    FindAtFront(key, group + tail, cls);
    RunStops(group, tail, cls);
  }
}
