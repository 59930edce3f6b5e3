/** The node identifier scheme of the explorer: a folder node's id is the text
    `folder-<backend id>`, and the component reads the kind back as
    `id.split('-')[0]` and the backend id as `id.split('-')[1]`. */
module NodeIds {
  import opened Common

  const Separator: char := '-'
  const FolderTag: string := "folder"
  const FolderPrefix: string := "folder-"

  /** `s.split(sep)` as JavaScript computes it for a one-character separator:
      one part more than there are separators, the empty string giving `[""]`. */
  function Split(s: string, sep: char): (parts: seq<string>)
    ensures |parts| >= 1
    ensures forall i :: 0 <= i < |parts| ==> sep !in parts[i]
    decreases |s|
  {
    if s == [] then [""]
    else
      var rest := Split(s[1..], sep);
      if s[0] == sep then [""] + rest
      else [[s[0]] + rest[0]] + rest[1..]
  }

  /** `parts.join(sep)`, the inverse of Split. */
  function Join(parts: seq<string>, sep: char): string
    requires |parts| >= 1
  {
    if |parts| == 1 then parts[0] else parts[0] + [sep] + Join(parts[1..], sep)
  }

  /** `id.split('-')[k]`; an index past the end yields `undefined` (None).
      Index 0 is always defined, index 1 exactly when the id holds a `-`. */
  function Part(id: string, k: nat): (r: Option<string>)
    ensures r.Some? ==> Separator !in r.value
    ensures k == 0 ==> r.Some?
    ensures k == 1 ==> (r.Some? <==> Separator in id)
  {
    SplitHasSecondPart(id, Separator);
    var parts := Split(id, Separator);
    if k < |parts| then Some(parts[k]) else None
  }

  /** `s.startsWith(prefix)`. */
  predicate StartsWith(s: string, prefix: string)
  {
    |prefix| <= |s| && s[..|prefix|] == prefix
  }

  /** The template literal `folder-${id}` for a backend id already rendered as text. */
  function FolderId(backendId: string): (id: string)
    ensures StartsWith(id, FolderPrefix) && id[|FolderPrefix|..] == backendId
  {
    FolderPrefix + backendId
  }

  /** The number a string of decimal digits denotes. */
  function DigitsValue(s: string): nat
    requires forall i :: 0 <= i < |s| ==> '0' <= s[i] <= '9'
  {
    if s == [] then 0
    else 10 * DigitsValue(s[..|s| - 1]) + (s[|s| - 1] as int - '0' as int)
  }

  /** How `${n}` renders a non-negative integer backend id: decimal digits
      that denote `n`. */
  function DecimalString(n: nat): (r: string)
    ensures |r| >= 1
    ensures forall i :: 0 <= i < |r| ==> '0' <= r[i] <= '9'
    ensures DigitsValue(r) == n
    ensures |r| > 1 ==> r[0] != '0'
  {
    if n < 10 then [('0' as int + n) as char]
    else
      var r := DecimalString(n / 10) + [('0' as int + n % 10) as char];
      assert r[..|r| - 1] == DecimalString(n / 10);
      r
  }

  /** Distinct numeric backend ids give distinct folder node ids. */
  lemma NumericFolderIdsDistinct(m: nat, n: nat)
    requires m != n
    ensures FolderId(DecimalString(m)) != FolderId(DecimalString(n))
  {
    if FolderId(DecimalString(m)) == FolderId(DecimalString(n)) {
      FolderIdInjective(DecimalString(m), DecimalString(n));
    }
  }

  /** Splitting undoes joining: the parts, rejoined, give back the text. */
  lemma {:induction false} JoinSplit(s: string, sep: char)
    ensures Join(Split(s, sep), sep) == s
    decreases |s|
  {
    if s != [] {
      var rest := Split(s[1..], sep);
      JoinSplit(s[1..], sep);
      if s[0] == sep {
        assert ([""] + rest)[1..] == rest;
      } else {
        var parts := [[s[0]] + rest[0]] + rest[1..];
        if |rest| > 1 {
          assert parts[1..] == rest[1..];
        }
      }
    }
  }

  /** The text splits into two or more parts exactly when it holds the separator. */
  lemma SplitHasSecondPart(s: string, sep: char)
    ensures |Split(s, sep)| >= 2 <==> sep in s
  {
    if sep !in s {
      SplitNoSeparator(s, sep);
    } else {
      JoinSplit(s, sep);
      var parts := Split(s, sep);
      assert sep !in parts[0];
      assert |parts| != 1;
    }
  }

  /** Text without a separator splits into itself alone. */
  lemma {:induction false} SplitNoSeparator(s: string, sep: char)
    requires sep !in s
    ensures Split(s, sep) == [s]
    decreases |s|
  {
    if s != [] {
      SplitNoSeparator(s[1..], sep);
      assert [s[0]] + s[1..] == s;
    }
  }

  /** Splitting at one separator occurrence splits the two sides independently. */
  lemma {:induction false} SplitAround(a: string, b: string, sep: char)
    ensures Split(a + [sep] + b, sep) == Split(a, sep) + Split(b, sep)
    decreases |a|
  {
    var s := a + [sep] + b;
    if a == [] {
      assert s[0] == sep && s[1..] == b;
    } else {
      assert s[0] == a[0] && s[1..] == a[1..] + [sep] + b;
      SplitAround(a[1..], b, sep);
      var ra := Split(a[1..], sep);
      var rb := Split(b, sep);
      if a[0] != sep {
        assert Split(s, sep) == [[a[0]] + ra[0]] + (ra + rb)[1..];
        assert (ra + rb)[1..] == ra[1..] + rb;
      }
    }
  }

  /** Joining at least two parts ends with a separator and the last part. */
  lemma {:induction false} JoinLast(parts: seq<string>, sep: char)
    requires |parts| >= 2
    ensures Join(parts, sep) == Join(parts[..|parts| - 1], sep) + [sep] + parts[|parts| - 1]
    decreases |parts|
  {
    if |parts| > 2 {
      JoinLast(parts[1..], sep);
      assert parts[1..][..|parts| - 2] == parts[..|parts| - 1][1..];
    }
  }

  /** Id round-trip: the kind tag of `folder-<b>` always reads back as `folder`,
      and the backend id reads back as `b` exactly when `b` has no `-`. */
  lemma FolderIdRoundTrip(b: string)
    ensures Part(FolderId(b), 0) == Some(FolderTag)
    ensures Part(FolderId(b), 1) == Some(b) <==> Separator !in b
  {
    assert FolderId(b) == FolderTag + [Separator] + b;
    JoinedParts(FolderTag, b);
  }

  /** A separator-free head joined to any tail by a `-` reads back as its
      first part; the tail is the second part exactly when it has no `-`. */
  lemma JoinedParts(a: string, b: string)
    requires Separator !in a
    ensures Part(a + [Separator] + b, 0) == Some(a)
    ensures Part(a + [Separator] + b, 1) == Some(b) <==> Separator !in b
  {
    SplitAround(a, b, Separator);
    SplitNoSeparator(a, Separator);
    if Separator !in b {
      SplitNoSeparator(b, Separator);
    }
  }

  /** A backend id rendered from a number never contains `-`, so numeric ids round-trip. */
  lemma NumericFolderIdRoundTrip(n: nat)
    ensures Part(FolderId(DecimalString(n)), 0) == Some(FolderTag)
    ensures Part(FolderId(DecimalString(n)), 1) == Some(DecimalString(n))
  {
    var d := DecimalString(n);
    assert Separator !in d;
    FolderIdRoundTrip(d);
  }

  /** Distinct backend ids give distinct folder node ids. */
  lemma FolderIdInjective(a: string, b: string)
    requires FolderId(a) == FolderId(b)
    ensures a == b
  {
    assert a == FolderId(a)[|FolderPrefix|..];
    assert b == FolderId(b)[|FolderPrefix|..];
  }

  /** The two folder tests the component uses disagree only on the bare text
      `folder`: `split('-')[0] === 'folder'` holds exactly when the id starts
      with `folder-` or is `folder` itself. */
  lemma KindTestsAgree(id: string)
    ensures Part(id, 0) == Some(FolderTag) <==> StartsWith(id, FolderPrefix) || id == FolderTag
  {
    SplitNoSeparator(FolderTag, Separator);
    if StartsWith(id, FolderPrefix) {
      var rest := id[|FolderPrefix|..];
      assert id == FolderTag + [Separator] + rest;
      JoinedParts(FolderTag, rest);
    }
    if Part(id, 0) == Some(FolderTag) && id != FolderTag {
      var parts := Split(id, Separator);
      JoinSplit(id, Separator);
      assert |parts| != 1;
      assert id == FolderTag + [Separator] + Join(parts[1..], Separator);
      assert id[..|FolderPrefix|] == FolderPrefix;
    }
  }

  /** A folder-prefixed id always has a second part, so the parent id of a
      folder selection is never `undefined`. */
  lemma FolderPrefixedHasBackendPart(id: string)
    requires StartsWith(id, FolderPrefix)
    ensures Part(id, 0) == Some(FolderTag)
    ensures Part(id, 1).Some?
  {
    var rest := id[|FolderPrefix|..];
    assert id == FolderTag + [Separator] + rest;
    SplitAround(FolderTag, rest, Separator);
    SplitNoSeparator(FolderTag, Separator);
  }
}
