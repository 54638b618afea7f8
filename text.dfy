/** The JavaScript string operations the conversation search relies on:
    `trim`, `toLowerCase`, `includes` and `Array.prototype.join`, over
    strings as sequences of characters. */
module Text {

  /** The characters `String.prototype.trim` removes that this model knows
      about: ASCII white space, line terminators, no-break space and the
      byte-order mark. */
  predicate IsSpace(c: char) {
    c == ' ' || c == '\t' || c == '\n' || c == '\r' || c == '\U{000B}' || c == '\U{000C}'
    || c == '\U{00A0}' || c == '\U{FEFF}' || c == '\U{2028}' || c == '\U{2029}'
  }

  predicate AllSpace(s: string) {
    forall i :: 0 <= i < |s| ==> IsSpace(s[i])
  }

  /** Leading white space removed. */
  function TrimStart(s: string): (r: string)
    ensures |r| <= |s| && r == s[|s| - |r|..]
    ensures AllSpace(s[..|s| - |r|])
    ensures r == [] || !IsSpace(r[0])
  {
    if s != [] && IsSpace(s[0]) then TrimStart(s[1..]) else s
  }

  /** Trailing white space removed. */
  function TrimEnd(s: string): (r: string)
    ensures |r| <= |s| && r == s[..|r|]
    ensures AllSpace(s[|r|..])
    ensures r == [] || !IsSpace(r[|r| - 1])
  {
    if s != [] && IsSpace(s[|s| - 1]) then TrimEnd(s[..|s| - 1]) else s
  }

  /** `s.trim()`: empty exactly when s is all white space, and otherwise
      neither starting nor ending with white space. */
  function Trim(s: string): (r: string)
    ensures r == [] <==> AllSpace(s)
    ensures r == [] || (!IsSpace(r[0]) && !IsSpace(r[|r| - 1]))
  {
    TrimStartAllSpace(s);
    TrimEnd(TrimStart(s))
  }

  /** `toLowerCase` on one character; only ASCII letters change. */
  function LowerChar(c: char): (r: char)
    ensures !('A' <= r <= 'Z')
    ensures 'a' <= c <= 'z' ==> r == c
    ensures IsSpace(r) == IsSpace(c)
    ensures !('A' <= c <= 'Z') ==> r == c
    ensures 'A' <= c <= 'Z' ==> 'a' <= r <= 'z' && r as int - 'a' as int == c as int - 'A' as int
  {
    if 'A' <= c <= 'Z' then (c as int - 'A' as int + 'a' as int) as char else c
  }

  /** `s.toLowerCase()`, character by character. */
  function Lower(s: string): (r: string)
    ensures |r| == |s|
    ensures forall i :: 0 <= i < |s| ==> r[i] == LowerChar(s[i])
  {
    if s == [] then [] else [LowerChar(s[0])] + Lower(s[1..])
  }

  /** `haystack.includes(needle)`: the needle starts at some position.
      The empty needle occurs everywhere; a longer needle nowhere. */
  predicate Contains(haystack: string, needle: string)
    ensures needle == [] ==> Contains(haystack, needle)
    ensures Contains(haystack, needle) ==> |needle| <= |haystack|
  {
    needle <= haystack || (haystack != [] && Contains(haystack[1..], needle))
  }

  /** The needle occurs in the haystack starting at index i. */
  predicate OccursAt(haystack: string, needle: string, i: int) {
    0 <= i && i + |needle| <= |haystack| && haystack[i..i + |needle|] == needle
  }

  /** The total length of the pieces. */
  function TotalLength(pieces: seq<string>): nat {
    if pieces == [] then 0 else |pieces[0]| + TotalLength(pieces[1..])
  }

  /** `pieces.join(" ")`: the pieces in order, one space between
      neighbours, so one character fewer per piece than a separator each. */
  function Join(pieces: seq<string>): (r: string)
    ensures |pieces| > 0 ==> |r| == TotalLength(pieces) + |pieces| - 1
    ensures |pieces| == 0 ==> r == []
    ensures |pieces| > 0 ==> r[..|pieces[0]|] == pieces[0]
    ensures |pieces| > 1 ==> r[|pieces[0]|] == ' ' && r[|pieces[0]| + 1..] == Join(pieces[1..])
  {
    if |pieces| == 0 then []
    else if |pieces| == 1 then pieces[0]
    else pieces[0] + " " + Join(pieces[1..])
  }

  // ---------------------------------------------------------------------
  // Lower-casing

  lemma {:induction false} LowerSlice(s: string, i: int, j: int)
    requires 0 <= i <= j <= |s|
    ensures Lower(s[i..j]) == Lower(s)[i..j]
  {
    forall k | 0 <= k < j - i ensures Lower(s[i..j])[k] == Lower(s)[i..j][k] {
      assert Lower(s[i..j])[k] == LowerChar(s[i + k]);
    }
  }

  // ---------------------------------------------------------------------
  // Trimming

  /** Trimming the start of a concatenation: the second part survives
      whole unless the first part is all white space. */
  lemma {:induction false} TrimStartConcat(a: string, b: string)
    ensures TrimStart(a + b) == if TrimStart(a) == [] then TrimStart(b) else TrimStart(a) + b
  {
    if a == [] {
      assert a + b == b;
    } else if IsSpace(a[0]) {
      assert (a + b)[1..] == a[1..] + b;
      TrimStartConcat(a[1..], b);
    }
  }

  lemma {:induction false} TrimStartAllSpace(s: string)
    ensures TrimStart(s) == [] <==> AllSpace(s)
  {
    if s != [] && IsSpace(s[0]) {
      TrimStartAllSpace(s[1..]);
      if AllSpace(s[1..]) {
        forall i | 0 <= i < |s| ensures IsSpace(s[i]) {
          if i > 0 { assert s[i] == s[1..][i - 1]; }
        }
      }
    }
  }

  lemma {:induction false} TrimEndConcatSpace(a: string, b: string)
    requires AllSpace(b)
    ensures TrimEnd(a + b) == TrimEnd(a)
  {
    if b == [] {
      assert a + b == a;
    } else {
      var b' := b[..|b| - 1];
      assert (a + b)[..|a + b| - 1] == a + b';
      TrimEndConcatSpace(a, b');
    }
  }

  /** White space around the text does not change its trimmed form. */
  lemma TrimPadded(pre: string, s: string, post: string)
    requires AllSpace(pre) && AllSpace(post)
    ensures Trim(pre + s + post) == Trim(s)
  {
    var mid := s + post;
    assert pre + s + post == pre + mid;
    TrimStartAllSpace(pre);
    TrimStartConcat(pre, mid);
    assert TrimStart(pre + mid) == TrimStart(mid);
    TrimStartConcat(s, post);
    TrimStartAllSpace(post);
    if TrimStart(s) == [] {
      assert TrimStart(mid) == [];
    } else {
      assert TrimStart(mid) == TrimStart(s) + post;
      TrimEndConcatSpace(TrimStart(s), post);
    }
  }

  lemma {:induction false} TrimStartLower(s: string)
    ensures TrimStart(Lower(s)) == Lower(TrimStart(s))
  {
    if s != [] {
      assert Lower(s)[1..] == Lower(s[1..]);
      if IsSpace(s[0]) {
        TrimStartLower(s[1..]);
      }
    }
  }

  lemma {:induction false} TrimEndLower(s: string)
    ensures TrimEnd(Lower(s)) == Lower(TrimEnd(s))
  {
    if s != [] {
      var s' := s[..|s| - 1];
      LowerSlice(s, 0, |s| - 1);
      if IsSpace(s[|s| - 1]) {
        TrimEndLower(s');
      }
    }
  }

  /** Lower-casing and trimming commute. */
  lemma TrimLower(s: string)
    ensures Trim(Lower(s)) == Lower(Trim(s))
  {
    TrimStartLower(s);
    TrimEndLower(TrimStart(s));
  }

  // ---------------------------------------------------------------------
  // Substring search

  /** `includes` holds exactly when the needle occurs at some index. */
  lemma {:induction false} ContainsOccurs(haystack: string, needle: string)
    ensures Contains(haystack, needle) <==> exists i :: OccursAt(haystack, needle, i)
  {
    if needle <= haystack {
      assert OccursAt(haystack, needle, 0);
    } else if haystack == [] {
      assert forall i :: !OccursAt(haystack, needle, i);
    } else {
      var tail := haystack[1..];
      ContainsOccurs(tail, needle);
      if i :| OccursAt(tail, needle, i) {
        OccursShift(haystack, needle, i);
      }
      assert !OccursAt(haystack, needle, 0);
      if i :| OccursAt(haystack, needle, i) {
        OccursUnshift(haystack, needle, i);
      }
    }
  }

  /** An occurrence in the tail is an occurrence one further on. */
  lemma OccursShift(haystack: string, needle: string, i: int)
    requires haystack != [] && OccursAt(haystack[1..], needle, i)
    ensures OccursAt(haystack, needle, i + 1)
  {
    assert haystack[i + 1..i + 1 + |needle|] == haystack[1..][i..i + |needle|];
  }

  /** An occurrence past the first character is one in the tail. */
  lemma OccursUnshift(haystack: string, needle: string, i: int)
    requires i >= 1 && OccursAt(haystack, needle, i)
    ensures OccursAt(haystack[1..], needle, i - 1)
  {
    assert haystack[1..][i - 1..i - 1 + |needle|] == haystack[i..i + |needle|];
  }

  lemma ContainsAt(haystack: string, needle: string, i: int)
    requires OccursAt(haystack, needle, i)
    ensures Contains(haystack, needle)
  {
    ContainsOccurs(haystack, needle);
  }

  /** An occurrence in a part is an occurrence in the whole. */
  lemma ContainsTransitive(a: string, b: string, c: string)
    requires Contains(a, b) && Contains(b, c)
    ensures Contains(a, c)
  {
    ContainsOccurs(a, b);
    ContainsOccurs(b, c);
    var i :| OccursAt(a, b, i);
    var j :| OccursAt(b, c, j);
    assert b == a[i..i + |b|];
    forall k | 0 <= k < |c| ensures a[i + j + k] == c[k] {
      assert c[k] == b[j + k] == a[i + j + k];
    }
    assert a[i + j..i + j + |c|] == c;
    ContainsAt(a, c, i + j);
  }

  /** Lower-casing both sides keeps an occurrence. */
  lemma ContainsLower(haystack: string, needle: string)
    requires Contains(haystack, needle)
    ensures Contains(Lower(haystack), Lower(needle))
  {
    ContainsOccurs(haystack, needle);
    var i :| OccursAt(haystack, needle, i);
    LowerSlice(haystack, i, i + |needle|);
    ContainsAt(Lower(haystack), Lower(needle), i);
  }

  lemma ContainsEmpty(haystack: string)
    ensures Contains(haystack, [])
  {
    ContainsAt(haystack, [], 0);
  }

  /** A needle with a character the haystack lacks does not occur. */
  lemma AbsentChar(haystack: string, needle: string, k: int)
    requires 0 <= k < |needle| && needle[k] !in haystack
    ensures !Contains(haystack, needle)
  {
    ContainsOccurs(haystack, needle);
  }

  lemma ContainsNothingIn(needle: string)
    requires Contains([], needle)
    ensures needle == []
  {
  }

  /** Every piece occurs in the joined string. */
  lemma {:induction false} JoinContains(pieces: seq<string>, k: int)
    requires 0 <= k < |pieces|
    ensures Contains(Join(pieces), pieces[k])
  {
    if |pieces| == 1 {
      ContainsAt(Join(pieces), pieces[0], 0);
    } else {
      var rest := Join(pieces[1..]);
      var whole := pieces[0] + " " + rest;
      assert Join(pieces) == whole;
      if k == 0 {
        assert whole[..|pieces[0]|] == pieces[0];
        ContainsAt(whole, pieces[0], 0);
      } else {
        JoinContains(pieces[1..], k - 1);
        var off := |pieces[0]| + 1;
        assert whole[off..] == rest;
        assert whole[off..off + |rest|] == rest;
        ContainsAt(whole, rest, off);
        ContainsTransitive(whole, rest, pieces[k]);
      }
    }
  }

  /** Every character of a joined string is a separator or comes from
      one of the pieces. */
  lemma {:induction false} JoinChar(pieces: seq<string>, i: int)
    requires 0 <= i < |Join(pieces)|
    ensures Join(pieces)[i] == ' '
            || exists k, j :: 0 <= k < |pieces| && 0 <= j < |pieces[k]| && pieces[k][j] == Join(pieces)[i]
  {
    if |pieces| == 1 {
      assert pieces[0][i] == Join(pieces)[i];
    } else {
      var rest := Join(pieces[1..]);
      var whole := pieces[0] + " " + rest;
      assert Join(pieces) == whole;
      if i < |pieces[0]| {
        assert pieces[0][i] == whole[i];
      } else if i > |pieces[0]| {
        var i' := i - |pieces[0]| - 1;
        assert whole[i] == rest[i'];
        JoinChar(pieces[1..], i');
        if whole[i] != ' ' {
          var k, j :| 0 <= k < |pieces[1..]| && 0 <= j < |pieces[1..][k]| && pieces[1..][k][j] == rest[i'];
          assert pieces[k + 1][j] == whole[i];
        }
      }
    }
  }
}
