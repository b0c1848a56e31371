/**
 * The parts of java.lang.String that the storage uses to take a path apart:
 * trim(), split("/"), lastIndexOf("/"), substring and endsWith("/").
 * Strings are `seq<char>`, a sequence of Unicode scalar values rather than
 * Java's UTF-16 code units; every operation here looks only at '/' and at
 * characters up to the space, which the two encodings write alike.
 */
module JavaStrings {

  /** trim() strips every character whose code is at most that of the space. */
  predicate IsTrimmable(c: char) {
    c <= ' '
  }

  /** Index of the first character trim() keeps, or |s| when it keeps none. */
  function TrimStart(s: string): (i: nat)
    ensures i <= |s|
    ensures forall k :: 0 <= k < i ==> IsTrimmable(s[k])
    ensures i < |s| ==> !IsTrimmable(s[i])
    decreases |s|
  {
    if s == [] || !IsTrimmable(s[0]) then 0 else 1 + TrimStart(s[1..])
  }

  /** One past the last character trim() keeps, or 0 when it keeps none. */
  function TrimEnd(s: string): (j: nat)
    ensures j <= |s|
    ensures forall k :: j <= k < |s| ==> IsTrimmable(s[k])
    ensures 0 < j ==> !IsTrimmable(s[j - 1])
    decreases |s|
  {
    if s == [] || !IsTrimmable(s[|s| - 1]) then |s| else TrimEnd(s[..|s| - 1])
  }

  /**
   * String.trim(): the longest infix of `s` that neither starts nor ends with
   * a trimmable character. It is empty exactly when every character of `s`
   * is trimmable.
   */
  function Trim(s: string): (r: string)
    ensures (r == []) <==> (forall k :: 0 <= k < |s| ==> IsTrimmable(s[k]))
    ensures TrimStart(s) + |r| <= |s| && r == s[TrimStart(s)..TrimStart(s) + |r|]
    ensures forall k :: TrimStart(s) + |r| <= k < |s| ==> IsTrimmable(s[k])
    ensures r != [] ==> !IsTrimmable(r[0]) && !IsTrimmable(r[|r| - 1])
  {
    var i, j := TrimStart(s), TrimEnd(s);
    if i == |s| then [] else s[i..j]
  }

  /** trim() keeps a string that neither starts nor ends with a trimmable character as it is. */
  lemma TrimKeepsUntrimmed(s: string)
    requires s != [] && !IsTrimmable(s[0]) && !IsTrimmable(s[|s| - 1])
    ensures Trim(s) == s
  {
    assert TrimStart(s) == 0 && TrimEnd(s) == |s|;
  }

  /** `path.trim().equals("")`, the blank test every operation makes. */
  predicate IsBlank(path: string) {
    Trim(path) == []
  }

  /** String.endsWith("/"). */
  predicate EndsWithSlash(s: string) {
    |s| > 0 && s[|s| - 1] == '/'
  }

  /** String.indexOf(c): the first position of `c`, or -1. */
  function IndexOf(s: string, c: char): (i: int)
    ensures -1 <= i < |s|
    ensures i == -1 <==> c !in s
    ensures 0 <= i ==> s[i] == c && c !in s[..i]
    decreases |s|
  {
    if s == [] then -1
    else if s[0] == c then 0
    else
      var i := IndexOf(s[1..], c);
      if i == -1 then -1 else i + 1
  }

  /** String.lastIndexOf(c): the last position of `c`, or -1. */
  function LastIndexOf(s: string, c: char): (i: int)
    ensures -1 <= i < |s|
    ensures i == -1 <==> c !in s
    ensures 0 <= i ==> s[i] == c && c !in s[i + 1..]
    decreases |s|
  {
    if s == [] then -1
    else if s[|s| - 1] == c then
      assert s[|s|..] == [];
      |s| - 1
    else
      var init := s[..|s| - 1];
      assert s == init + [s[|s| - 1]];
      var i := LastIndexOf(init, c);
      assert 0 <= i ==> s[i + 1..] == init[i + 1..] + [s[|s| - 1]];
      i
  }

  /** Glues fields back together with a slash between each two. */
  function Join(fields: seq<string>): string
    requires |fields| >= 1
    decreases |fields|
  {
    if |fields| == 1 then fields[0] else fields[0] + "/" + Join(fields[1..])
  }

  /** The first slash of `head + "/" + tail` is the one after `head` when `head` has none. */
  lemma {:induction false} IndexOfAfterHead(head: string, tail: string)
    requires '/' !in head
    ensures IndexOf(head + "/" + tail, '/') == |head|
    decreases |head|
  {
    var s := head + "/" + tail;
    if head != [] {
      assert s[0] == head[0] && head[0] in head;
      assert s[1..] == head[1..] + "/" + tail;
      IndexOfAfterHead(head[1..], tail);
    }
  }

  /** The last slash of `head + "/" + tail` is the one before `tail` when `tail` has none. */
  lemma {:induction false} LastIndexOfBeforeTail(head: string, tail: string)
    requires '/' !in tail
    ensures LastIndexOf(head + "/" + tail, '/') == |head|
    decreases |tail|
  {
    var s := head + "/" + tail;
    if tail != [] {
      assert s[|s| - 1] == tail[|tail| - 1] && tail[|tail| - 1] in tail;
      assert s[..|s| - 1] == head + "/" + tail[..|tail| - 1];
      LastIndexOfBeforeTail(head, tail[..|tail| - 1]);
    }
  }

  /**
   * The text between the slashes of `s`, every empty field kept: what
   * split("/") finds before it drops the trailing empty ones.
   */
  function Fields(s: string): (r: seq<string>)
    ensures |r| >= 1
    ensures forall f :: f in r ==> '/' !in f
    decreases |s|
  {
    var i := IndexOf(s, '/');
    if i == -1 then [s] else [s[..i]] + Fields(s[i + 1..])
  }

  /** One step of Fields: the text before the first slash, then the fields after it. */
  lemma FieldsStep(s: string, i: int)
    requires i == IndexOf(s, '/') && i != -1
    ensures Fields(s) == [s[..i]] + Fields(s[i + 1..])
  {
  }

  /** One step of Join. */
  lemma JoinStep(head: string, rest: seq<string>)
    requires |rest| >= 1
    ensures Join([head] + rest) == head + "/" + Join(rest)
  {
    assert ([head] + rest)[1..] == rest;
  }

  /** A string cut around one of its slashes. */
  lemma CutAtSlash(s: string, i: nat)
    requires i < |s| && s[i] == '/'
    ensures s == s[..i] + "/" + s[i + 1..]
  {
  }

  /** Joining the fields of `s` gives `s` back. */
  lemma {:induction false} JoinOfFields(s: string)
    ensures Join(Fields(s)) == s
    decreases |s|
  {
    var i := IndexOf(s, '/');
    if i != -1 {
      FieldsStep(s, i);
      JoinOfFields(s[i + 1..]);
      JoinStep(s[..i], Fields(s[i + 1..]));
      CutAtSlash(s, i);
    }
  }

  /** Fields undoes Join for fields without slashes: with JoinOfFields, the two are inverse. */
  lemma {:induction false} FieldsOfJoin(fields: seq<string>)
    requires |fields| >= 1
    requires forall f :: f in fields ==> '/' !in f
    ensures Fields(Join(fields)) == fields
    decreases |fields|
  {
    if |fields| > 1 {
      var head, more := fields[0], fields[1..];
      assert fields == [head] + more;
      JoinStep(head, more);
      var tail := Join(more);
      assert head in fields;
      IndexOfAfterHead(head, tail);
      FieldsStep(head + "/" + tail, |head|);
      CutParts(head, tail);
      assert forall f :: f in more ==> f in fields;
      FieldsOfJoin(more);
    }
  }

  /** The two sides of the slash in `head + "/" + tail`. */
  lemma CutParts(head: string, tail: string)
    ensures (head + "/" + tail)[..|head|] == head
    ensures (head + "/" + tail)[|head| + 1..] == tail
  {
  }

  /** Drops the empty strings at the end, as split("/") does with limit 0. */
  function DropTrailingEmpty(fields: seq<string>): (r: seq<string>)
    ensures r <= fields
    ensures forall k :: |r| <= k < |fields| ==> fields[k] == ""
    ensures r == [] || r[|r| - 1] != ""
    decreases |fields|
  {
    if fields != [] && fields[|fields| - 1] == "" then DropTrailingEmpty(fields[..|fields| - 1])
    else fields
  }

  /**
   * String.split("/"): with no slash the whole string is the one element;
   * otherwise the fields between slashes, leading and interior empty fields
   * kept and trailing empty fields dropped.
   */
  function Split(s: string): (r: seq<string>)
    ensures forall f :: f in r ==> '/' !in f
    ensures '/' !in s ==> r == [s]
    ensures '/' in s ==> r <= Fields(s) && (r == [] || r[|r| - 1] != "")
    ensures forall k :: |r| <= k < |Fields(s)| ==> Fields(s)[k] == ""
  {
    if '/' !in s then [s] else DropTrailingEmpty(Fields(s))
  }

  /** Every character of `s` is a slash. */
  predicate AllSlashes(s: string) {
    forall k :: 0 <= k < |s| ==> s[k] == '/'
  }

  /** Every field is the empty string. */
  predicate AllEmpty(fields: seq<string>) {
    forall j :: 0 <= j < |fields| ==> fields[j] == ""
  }

  /** A string of slashes has only empty fields. */
  lemma {:induction false} FieldsOfSlashes(s: string)
    requires AllSlashes(s)
    ensures AllEmpty(Fields(s))
    decreases |s|
  {
    if s != [] {
      var rest := s[1..];
      assert s[0] == '/';
      assert IndexOf(s, '/') == 0;
      assert s[..0] == "";
      assert AllSlashes(rest) by {
        forall k | 0 <= k < |rest|
          ensures rest[k] == '/'
        {
          assert rest[k] == s[k + 1];
        }
      }
      FieldsOfSlashes(rest);
      var fs, tail := Fields(s), Fields(rest);
      assert fs == [""] + tail;
      forall j | 0 <= j < |fs|
        ensures fs[j] == ""
      {
        if j > 0 {
          assert fs[j] == tail[j - 1];
        }
      }
    }
  }

  /** A string whose fields are all empty is a string of slashes. */
  lemma {:induction false} SlashesOfEmptyFields(s: string)
    requires AllEmpty(Fields(s))
    ensures AllSlashes(s)
    decreases |s|
  {
    var i := IndexOf(s, '/');
    if i != -1 {
      var rest := s[i + 1..];
      assert Fields(s) == [s[..i]] + Fields(rest);
      assert Fields(s)[0] == s[..i];
      assert i == 0;
      assert AllEmpty(Fields(rest)) by {
        assert forall j :: 0 <= j < |Fields(rest)| ==> Fields(rest)[j] == Fields(s)[j + 1];
      }
      SlashesOfEmptyFields(rest);
      assert forall k :: 0 < k < |s| ==> s[k] == rest[k - 1];
    } else {
      assert Fields(s)[0] == s;
    }
  }

  /**
   * split("/") yields no segment at all exactly for a non-empty string made
   * only of slashes, as "/" and "//" are.
   */
  lemma SplitEmptyIffOnlySlashes(s: string)
    ensures Split(s) == [] <==> s != [] && AllSlashes(s)
  {
    if '/' in s {
      var fs := Fields(s);
      if Split(s) == [] {
        SlashesOfEmptyFields(s);
      }
      if AllSlashes(s) {
        FieldsOfSlashes(s);
      }
    } else if s != [] {
      assert s[0] in s;
    }
  }

  /** A leading slash gives a leading empty segment: `"/" + name` splits into "" and `name`, as "/myFolder" does. */
  lemma SplitKeepsLeadingEmpty(name: string)
    requires name != "" && '/' !in name
    ensures Split("/" + name) == ["", name]
  {
    var fields := ["", name];
    assert fields[1..] == [name];
    assert Join(fields) == "/" + name;
    FieldsOfJoin(fields);
    assert ("/" + name)[0] == '/';
  }

  /** Where a path is split into its folder part and its leaf (the text after the last slash). */
  datatype PathParts = PathParts(folder: string, leaf: string)

  /**
   * `lastIndexOf("/")` followed by the two `substring` calls: the leaf is the
   * text after the last slash and the folder part the text before it; with no
   * slash the folder part is "" and the whole path is the leaf.
   */
  function SplitLeaf(path: string): (r: PathParts)
    ensures '/' !in r.leaf
    ensures '/' in path ==> path == r.folder + "/" + r.leaf
    ensures '/' !in path ==> r == PathParts("", path)
  {
    var i := LastIndexOf(path, '/');
    if i > -1 then
      assert path == path[..i] + "/" + path[i + 1..];
      PathParts(path[..i], path[i + 1..])
    else PathParts("", path)
  }

  /** Taking apart `folder + "/" + leaf` gives back the two, whatever the folder part holds. */
  lemma SplitLeafOfJoin(folder: string, leaf: string)
    requires '/' !in leaf
    ensures SplitLeaf(folder + "/" + leaf) == PathParts(folder, leaf)
  {
    var path := folder + "/" + leaf;
    LastIndexOfBeforeTail(folder, leaf);
    assert path[..|folder|] == folder;
    assert path[|folder| + 1..] == leaf;
  }

  /** A string that is not blank holds a character trim() keeps. */
  lemma KeptCharacter(s: string) returns (m: nat)
    requires !IsBlank(s)
    ensures m < |s| && !IsTrimmable(s[m])
  {
    m :| 0 <= m < |s| && !IsTrimmable(s[m]);
  }

  /** A character trim() keeps stays, and the last kept character lies at or after it. */
  lemma TrimKeeps(s: string, p: nat) returns (q: nat)
    requires p < |s| && !IsTrimmable(s[p])
    ensures Trim(s) != []
    ensures p <= q < |s|
    ensures Trim(s)[|Trim(s)| - 1] == s[q]
  {
    var i, r := TrimStart(s), Trim(s);
    assert i <= p;
    assert r != [];
    assert p < i + |r|;
    q := i + |r| - 1;
    assert r[|r| - 1] == s[i..i + |r|][|r| - 1];
  }

  /** Past its slash, `folder + "/" + leaf` is the leaf. */
  lemma LeafOfLeafPath(folder: string, leaf: string)
    ensures |folder + "/" + leaf| == |folder| + 1 + |leaf|
    ensures (folder + "/" + leaf)[|folder| + 1..] == leaf
  {
  }

  /** When a suffix of `s` is not blank, trim() ends inside that suffix. */
  lemma TrimEndsInSuffix(s: string, start: nat) returns (q: nat)
    requires start <= |s| && !IsBlank(s[start..])
    ensures Trim(s) != []
    ensures start <= q < |s| && Trim(s)[|Trim(s)| - 1] == s[q]
  {
    var m := KeptCharacter(s[start..]);
    assert s[start + m] == s[start..][m];
    q := TrimKeeps(s, start + m);
  }

  /** Trimming `folder + "/" + leaf`, for a non-blank leaf without slashes, keeps a character of the leaf last. */
  lemma TrimOfLeafPath(folder: string, leaf: string)
    requires '/' !in leaf
    requires !IsBlank(leaf)
    ensures !IsBlank(folder + "/" + leaf)
    ensures !EndsWithSlash(Trim(folder + "/" + leaf))
  {
    LeafOfLeafPath(folder, leaf);
    var q := TrimEndsInSuffix(folder + "/" + leaf, |folder| + 1);
    assert (folder + "/" + leaf)[q] == leaf[q - |folder| - 1];
    assert leaf[q - |folder| - 1] in leaf;
  }
}
