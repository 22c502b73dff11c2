/** The string operations the source relies on: trimming, splitting, joining, searching. */
module Strings {

  /** The Unicode White_Space property, as `char::is_whitespace` has it. */
  predicate IsSpace(c: char) {
    var n := c as int;
    || 0x09 <= n <= 0x0D || n == 0x20 || n == 0x85 || n == 0xA0 || n == 0x1680
    || 0x2000 <= n <= 0x200A || n == 0x2028 || n == 0x2029 || n == 0x202F || n == 0x205F || n == 0x3000
  }

  function Trim(s: string): (r: string)
    ensures |r| <= |s|
  {
    if s == "" then ""
    else if IsSpace(s[0]) then Trim(s[1..])
    else if IsSpace(s[|s| - 1]) then Trim(s[..|s| - 1])
    else s
  }

  predicate Trimmed(s: string) {
    s == "" || (!IsSpace(s[0]) && !IsSpace(s[|s| - 1]))
  }

  predicate Spaces(s: string) {
    forall i :: 0 <= i < |s| ==> IsSpace(s[i])
  }

  lemma {:induction false} TrimIsTrimmed(s: string)
    ensures Trimmed(Trim(s))
  {
    if s != "" {
      if IsSpace(s[0]) {
        TrimIsTrimmed(s[1..]);
      } else if IsSpace(s[|s| - 1]) {
        TrimIsTrimmed(s[..|s| - 1]);
      }
    }
  }

  lemma {:induction false} TrimSubset(s: string, c: char)
    requires c in Trim(s)
    ensures c in s
  {
    if s != "" {
      if IsSpace(s[0]) {
        TrimSubset(s[1..], c);
      } else if IsSpace(s[|s| - 1]) {
        TrimSubset(s[..|s| - 1], c);
      }
    }
  }

  lemma SpacesCons(c: char, s: string)
    requires IsSpace(c) && Spaces(s)
    ensures Spaces([c] + s)
  {
  }

  lemma ConsSplit(s: string, pre: string, mid: string, post: string)
    requires s != "" && s[1..] == pre + mid + post
    ensures s == [s[0]] + pre + mid + post
  {
    assert s == [s[0]] + s[1..];
  }

  lemma SnocSplit(s: string, pre: string, mid: string, post: string)
    requires s != "" && s[..|s| - 1] == pre + mid + post
    ensures s == pre + mid + (post + [s[|s| - 1]])
  {
    assert s == s[..|s| - 1] + [s[|s| - 1]];
  }

  /** Trimming takes away white space on both sides and nothing else. */
  lemma {:induction false} TrimSplits(s: string) returns (pre: string, post: string)
    ensures s == pre + Trim(s) + post && Spaces(pre) && Spaces(post)
  {
    pre, post := "", "";
    if s != "" {
      if IsSpace(s[0]) {
        pre, post := TrimSplits(s[1..]);
        SpacesCons(s[0], pre);
        ConsSplit(s, pre, Trim(s), post);
        pre := [s[0]] + pre;
      } else if IsSpace(s[|s| - 1]) {
        pre, post := TrimSplits(s[..|s| - 1]);
        SnocSplit(s, pre, Trim(s), post);
        post := post + [s[|s| - 1]];
      }
    }
  }

  lemma {:induction false} TrimSpaceAfter(s: string, c: char)
    requires IsSpace(c)
    ensures Trim(s + [c]) == Trim(s)
  {
    if s == "" {
      assert s + [c] == [c];
      assert [c][1..] == "";
    } else if IsSpace(s[0]) {
      TrimSpaceAfter(s[1..], c);
      assert (s + [c])[1..] == s[1..] + [c];
    } else {
      assert (s + [c])[..|s|] == s;
    }
  }

  lemma {:induction false} TrimSpacesBefore(pre: string, s: string)
    requires Spaces(pre)
    ensures Trim(pre + s) == Trim(s)
  {
    if pre == "" {
      assert pre + s == s;
    } else {
      TrimSpacesBefore(pre[1..], s);
      assert (pre + s)[1..] == pre[1..] + s;
    }
  }

  lemma {:induction false} TrimSpacesAfter(s: string, post: string)
    requires Spaces(post)
    ensures Trim(s + post) == Trim(s)
  {
    if post == "" {
      assert s + post == s;
    } else {
      var init := post[..|post| - 1];
      TrimSpacesAfter(s, init);
      TrimSpaceAfter(s + init, post[|post| - 1]);
      assert s + post == s + init + [post[|post| - 1]];
    }
  }

  /** First position of c, or the length when there is none. */
  function IndexOf(s: string, c: char): (i: nat)
    ensures i <= |s| && (i < |s| ==> s[i] == c)
    ensures forall j :: 0 <= j < i ==> s[j] != c
  {
    if s == "" || s[0] == c then 0 else 1 + IndexOf(s[1..], c)
  }

  lemma {:induction false} IndexOfConcat(a: string, b: string, c: char)
    requires c !in a
    ensures IndexOf(a + b, c) == |a| + IndexOf(b, c)
  {
    if a == "" {
      assert a + b == b;
    } else {
      IndexOfConcat(a[1..], b, c);
      assert (a + b)[1..] == a[1..] + b;
    }
  }

  lemma {:induction false} IndexOfPrefix(a: string, b: string, c: char)
    requires c in a
    ensures IndexOf(a, c) < |a| && IndexOf(a + b, c) == IndexOf(a, c)
  {
    if a[0] != c {
      IndexOfPrefix(a[1..], b, c);
      assert (a + b)[1..] == a[1..] + b;
    }
  }

  /** A character that is not in the padding is found where it was. */
  lemma IndexOfPadded(pre: string, s: string, post: string, c: char)
    requires c !in pre && c !in post
    ensures IndexOf(pre + s + post, c) == if c in s then |pre| + IndexOf(s, c) else |pre + s + post|
    ensures c in s <==> IndexOf(s, c) < |s|
  {
    IndexOfConcat(pre, s + post, c);
    assert pre + s + post == pre + (s + post);
    if c in s {
      IndexOfPrefix(s, post, c);
    } else {
      IndexOfConcat(s, post, c);
    }
  }

  predicate StartsWith(s: string, prefix: string) {
    prefix <= s
  }

  predicate EndsWith(s: string, suffix: string) {
    |suffix| <= |s| && s[|s| - |suffix|..] == suffix
  }

  predicate Contains(s: string, part: string) {
    StartsWith(s, part) || (s != "" && Contains(s[1..], part))
  }

  /** Some text before and some after make up the whole. */
  lemma {:induction false} ContainsIff(s: string, part: string)
    ensures Contains(s, part) <==> exists pre: string, post: string :: s == pre + part + post
  {
    if StartsWith(s, part) {
      assert s == "" + part + s[|part|..];
    } else if s != "" {
      ContainsIff(s[1..], part);
      if pre: string, post: string :| s[1..] == pre + part + post {
        assert s == [s[0]] + s[1..];
        assert s == ([s[0]] + pre) + part + post;
      }
      if pre: string, post: string :| s == pre + part + post {
        LaterPart(s, pre, part, post);
      }
    } else {
      assert forall pre: string, post: string :: |pre + part + post| == |pre| + |part| + |post|;
    }
  }

  lemma LaterPart(s: string, pre: string, part: string, post: string)
    requires s == pre + part + post && !(part <= s)
    ensures pre != "" && s[1..] == pre[1..] + part + post
  {
    assert "" + part + post == part + post;
  }

  function Split(s: string, c: char): (r: seq<string>)
    ensures |r| > 0
    decreases |s|
  {
    var i := IndexOf(s, c);
    if i == |s| then [s] else [s[..i]] + Split(s[i + 1..], c)
  }

  function Join(parts: seq<string>, sep: string): string {
    if parts == [] then ""
    else if |parts| == 1 then parts[0]
    else parts[0] + sep + Join(parts[1..], sep)
  }

  /** Splitting what was joined on one character gives the parts back. */
  lemma {:induction false} SplitJoin(parts: seq<string>, c: char)
    requires parts != [] && forall i :: 0 <= i < |parts| ==> c !in parts[i]
    ensures Split(Join(parts, [c]), c) == parts
  {
    if |parts| == 1 {
      SplitOne(parts[0], c);
    } else {
      SplitJoin(parts[1..], c);
      JoinMore(parts, [c]);
      SplitMore(parts[0], Join(parts[1..], [c]), c);
    }
  }

  lemma JoinMore(parts: seq<string>, sep: string)
    requires |parts| > 1
    ensures Join(parts, sep) == parts[0] + sep + Join(parts[1..], sep)
  {
  }

  lemma SplitOne(s: string, c: char)
    requires c !in s
    ensures Split(s, c) == [s]
  {
    assert IndexOf(s, c) == |s|;
  }

  lemma SplitMore(head: string, rest: string, c: char)
    requires c !in head
    ensures Split(head + [c] + rest, c) == [head] + Split(rest, c)
  {
    var s := head + [c] + rest;
    IndexOfConcat(head, [c] + rest, c);
    assert s == head + ([c] + rest);
    assert s[..|head|] == head && s[|head| + 1..] == rest;
  }
}
