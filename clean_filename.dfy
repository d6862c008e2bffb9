/** The file-name sanitiser `clean_filename`: delete the characters that common
    file systems refuse, then keep at most 150 characters. */
module Sanitize {

  /** The characters deleted from a title, in the order the loop visits them. */
  const INVALID_CHARS: string := "<>:\"/\\|?*"

  /** The longest title kept. */
  const MAX_TITLE_LENGTH: nat := 150

  predicate IsInvalid(c: char) {
    c in INVALID_CHARS
  }

  /** `s` with every character that occurs in `cs` deleted, the others kept in order. */
  function DeleteAll(s: string, cs: string): (r: string)
    ensures |r| <= |s|
    ensures forall k :: 0 <= k < |r| ==> r[k] !in cs
  {
    if s == [] then []
    else (if s[0] in cs then [] else [s[0]]) + DeleteAll(s[1..], cs)
  }

  /** Python's `s.replace(c, '')`. */
  function Delete(s: string, c: char): string {
    DeleteAll(s, [c])
  }

  /** Python's slice `s[:n]`. */
  function Truncate(s: string, n: nat): (r: string)
    ensures |r| <= n && r <= s
    ensures |r| == if |s| <= n then |s| else n
    ensures |s| <= n ==> r == s
  {
    if |s| <= n then s else s[..n]
  }

  /** What `clean_filename` returns: the title with every invalid character
      deleted, cut to its first 150 characters. */
  function CleanName(title: string): (r: string)
    ensures forall k :: 0 <= k < |r| ==> !IsInvalid(r[k])
    ensures |r| <= MAX_TITLE_LENGTH
  {
    Truncate(DeleteAll(title, INVALID_CHARS), MAX_TITLE_LENGTH)
  }

  /** `clean_filename`: one `replace` per invalid character, then the slice. */
  method CleanFilename(title: string) returns (cleaned: string)
    ensures cleaned == CleanName(title)
  {
    var t := title;
    DeleteAllNoop(title, []);
    for i := 0 to |INVALID_CHARS|
      invariant t == DeleteAll(title, INVALID_CHARS[..i])
    {
      DeleteOneMore(title, INVALID_CHARS[..i], INVALID_CHARS[i]);
      assert INVALID_CHARS[..i + 1] == INVALID_CHARS[..i] + [INVALID_CHARS[i]];
      t := Delete(t, INVALID_CHARS[i]);
    }
    assert INVALID_CHARS[..|INVALID_CHARS|] == INVALID_CHARS;
    cleaned := Truncate(t, MAX_TITLE_LENGTH);
  }

  /** Deleting one more character after a batch is deleting the larger batch. */
  lemma {:induction false} DeleteOneMore(s: string, cs: string, c: char)
    ensures Delete(DeleteAll(s, cs), c) == DeleteAll(s, cs + [c])
  {
    if s != [] {
      DeleteOneMore(s[1..], cs, c);
      var head := if s[0] in cs then [] else [s[0]];
      assert DeleteAll(s, cs) == head + DeleteAll(s[1..], cs);
      DeleteAppend(head, DeleteAll(s[1..], cs), [c]);
    }
  }

  lemma {:induction false} DeleteAppend(a: string, b: string, cs: string)
    ensures DeleteAll(a + b, cs) == DeleteAll(a, cs) + DeleteAll(b, cs)
  {
    if a == [] {
      assert a + b == b;
    } else {
      DeleteAppend(a[1..], b, cs);
      var head := if a[0] in cs then [] else [a[0]];
      assert (a + b)[0] == a[0] && (a + b)[1..] == a[1..] + b;
      calc {
        DeleteAll(a + b, cs);
        head + DeleteAll(a[1..] + b, cs);
        head + (DeleteAll(a[1..], cs) + DeleteAll(b, cs));
        (head + DeleteAll(a[1..], cs)) + DeleteAll(b, cs);
      }
    }
  }

  /** `b` keeps some of the characters of `a`, in their order. */
  predicate IsSubsequence(b: string, a: string)
    decreases |a|
  {
    if b == [] then true
    else if a == [] then false
    else if a[0] == b[0] then IsSubsequence(b[1..], a[1..])
    else IsSubsequence(b, a[1..])
  }

  lemma {:induction false} PrefixOfSubsequence(p: string, b: string, a: string)
    requires p <= b && IsSubsequence(b, a)
    ensures IsSubsequence(p, a)
    decreases |a|
  {
    if p != [] && a != [] {
      if a[0] == b[0] {
        PrefixOfSubsequence(p[1..], b[1..], a[1..]);
      } else {
        PrefixOfSubsequence(p, b, a[1..]);
      }
    }
  }

  /** Deleting characters keeps the remaining ones in their order. */
  lemma {:induction false} DeleteAllInOrder(s: string, cs: string)
    ensures IsSubsequence(DeleteAll(s, cs), s)
  {
    if s != [] {
      DeleteAllInOrder(s[1..], cs);
      var rest := DeleteAll(s[1..], cs);
      if s[0] !in cs {
        assert ([s[0]] + rest)[1..] == rest;
      } else {
        assert DeleteAll(s, cs) == [] + rest == rest;
        assert rest != [] ==> rest[0] != s[0];
      }
    }
  }

  /** Deleting characters removes every occurrence of the listed ones and no
      occurrence of the others. */
  lemma {:induction false} DeleteAllCounts(s: string, cs: string, c: char)
    ensures multiset(DeleteAll(s, cs))[c] == if c in cs then 0 else multiset(s)[c]
  {
    if s != [] {
      DeleteAllCounts(s[1..], cs, c);
      assert s == [s[0]] + s[1..];
    }
  }

  /** A string none of whose characters is listed is left alone. */
  lemma {:induction false} DeleteAllNoop(s: string, cs: string)
    requires forall k :: 0 <= k < |s| ==> s[k] !in cs
    ensures DeleteAll(s, cs) == s
  {
    if s != [] {
      DeleteAllNoop(s[1..], cs);
      assert s == [s[0]] + s[1..];
    }
  }

  /** The cleaned title holds no invalid character and is exactly the first
      150 characters (or all, when fewer) of the title with the invalid ones
      deleted: a subsequence of the title that keeps every valid character
      when no truncation happens. */
  lemma CleanNameSpec(title: string)
    ensures var r := CleanName(title);
      && (forall k :: 0 <= k < |r| ==> !IsInvalid(r[k]))
      && |r| <= MAX_TITLE_LENGTH
      && r <= DeleteAll(title, INVALID_CHARS)
      && |r| == (if |DeleteAll(title, INVALID_CHARS)| <= MAX_TITLE_LENGTH
                 then |DeleteAll(title, INVALID_CHARS)| else MAX_TITLE_LENGTH)
      && IsSubsequence(r, title)
      && (|DeleteAll(title, INVALID_CHARS)| <= MAX_TITLE_LENGTH ==>
            forall c :: !IsInvalid(c) ==> multiset(r)[c] == multiset(title)[c])
  {
    DeleteAllInOrder(title, INVALID_CHARS);
    forall c | !IsInvalid(c)
      ensures multiset(DeleteAll(title, INVALID_CHARS))[c] == multiset(title)[c]
    {
      DeleteAllCounts(title, INVALID_CHARS, c);
    }
    PrefixOfSubsequence(CleanName(title), DeleteAll(title, INVALID_CHARS), title);
  }

  /** A title that is already clean and short enough is returned unchanged. */
  lemma CleanNameFixedPoint(title: string)
    requires forall k :: 0 <= k < |title| ==> !IsInvalid(title[k])
    requires |title| <= MAX_TITLE_LENGTH
    ensures CleanName(title) == title
  {
    DeleteAllNoop(title, INVALID_CHARS);
  }

  /** A cleaned title holds no path separator. */
  lemma CleanNameHasNoSlash(title: string)
    ensures '/' !in CleanName(title)
  {
    assert INVALID_CHARS[4] == '/';
  }

  /** Cleaning twice is cleaning once. */
  lemma CleanNameIdempotent(title: string)
    ensures CleanName(CleanName(title)) == CleanName(title)
  {
    CleanNameSpec(title);
    CleanNameFixedPoint(CleanName(title));
  }
}
