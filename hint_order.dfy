/**
 * How the icon scripts decide which inbox file becomes which output: the keyword lookup
 * `pick`, the two append loops that build the `ordered` list, and the slot loop that
 * walks the output names and stops once `ordered` runs out.
 */
module HintOrder {
  import opened Pixels

  datatype Option<T> = None | Some(value: T)

  /**
   * An inbox file. All candidates come from one directory, so two paths are equal
   * exactly when their file names are; a file is represented by its name.
   */
  type Path = string

  /** `str.lower()` on ASCII letters; other characters are left as they are. */
  function LowerChar(c: char): char
  {
    if 'A' <= c <= 'Z' then (c as int + 32) as char else c
  }

  function Lower(s: string): string
  {
    seq(|s|, i requires 0 <= i < |s| => LowerChar(s[i]))
  }

  /** Python's `key in s` on strings: key occurs as a contiguous substring of s. */
  predicate Contains(s: string, key: string)
  {
    exists i | 0 <= i <= |s| :: OccursAt(s, key, i)
  }

  predicate OccursAt(s: string, key: string, i: nat)
  {
    i + |key| <= |s| && s[i..i + |key|] == key
  }

  /** `key.lower() in p.name.lower()`. */
  predicate Matches(p: Path, key: string)
  {
    Contains(Lower(p), Lower(key))
  }

  /** The file `pick(key)` returns: the first one, in input order, whose name matches. */
  function FirstMatch(files: seq<Path>, key: string): Option<Path>
  {
    if |files| == 0 then None
    else if Matches(files[0], key) then Some(files[0])
    else FirstMatch(files[1..], key)
  }

  /** `pick` returns None exactly when no file matches, and otherwise the earliest match. */
  lemma {:induction false} FirstMatchIsFirst(files: seq<Path>, key: string)
    ensures FirstMatch(files, key).None? <==> forall i :: 0 <= i < |files| ==> !Matches(files[i], key)
    ensures FirstMatch(files, key).Some? ==>
              exists i :: 0 <= i < |files| && files[i] == FirstMatch(files, key).value &&
                Matches(files[i], key) && forall j :: 0 <= j < i ==> !Matches(files[j], key)
  {
    if |files| > 0 && !Matches(files[0], key) {
      FirstMatchIsFirst(files[1..], key);
      var rest := files[1..];
      assert forall i :: 1 <= i < |files| ==> files[i] == rest[i - 1];
      if FirstMatch(rest, key).Some? {
        var i :| 0 <= i < |rest| && rest[i] == FirstMatch(rest, key).value &&
          Matches(rest[i], key) && forall j :: 0 <= j < i ==> !Matches(rest[j], key);
        assert files[i + 1] == rest[i];
        assert forall j :: 0 <= j < i + 1 ==> !Matches(files[j], key) by {
          forall j | 0 <= j < i + 1 ensures !Matches(files[j], key) {
            if j > 0 { assert files[j] == rest[j - 1]; }
          }
        }
      }
    }
  }

  /**
   * `pick(key)`: scans the files in order and returns the first whose lower-cased name
   * contains the key, or None after the last file.
   */
  method Pick(files: seq<Path>, key: string) returns (r: Option<Path>)
    ensures r == FirstMatch(files, key)
  {
    var i := 0;
    while i < |files|
      invariant 0 <= i <= |files|
      invariant FirstMatch(files[i..], key) == FirstMatch(files, key)
    {
      if Matches(files[i], key) {
        return Some(files[i]);
      }
      assert files[i..][1..] == files[i + 1..];
      i := i + 1;
    }
    return None;
  }

  function Found(o: Option<Path>): seq<Path>
  {
    if o.Some? then [o.value] else []
  }

  /**
   * What the first loop appends: for each key in turn, the file `pick` finds, if any.
   * A file matching two keys is appended twice; nothing removes the repeat.
   */
  function Hinted(files: seq<Path>, keys: seq<string>): seq<Path>
  {
    if |keys| == 0 then []
    else Hinted(files, keys[..|keys| - 1]) + Found(FirstMatch(files, keys[|keys| - 1]))
  }

  /**
   * What the second loop leaves: each file of fs, in order, is appended unless the list
   * already holds it.
   */
  function AppendMissing(acc: seq<Path>, fs: seq<Path>): seq<Path>
  {
    if |fs| == 0 then acc
    else
      var s := AppendMissing(acc, fs[..|fs| - 1]);
      if fs[|fs| - 1] in s then s else s + [fs[|fs| - 1]]
  }

  /** The complete `ordered` list. */
  function Ordered(files: seq<Path>, keys: seq<string>): seq<Path>
  {
    AppendMissing(Hinted(files, keys), files)
  }

  /** t is s with some elements deleted, the rest kept in order. */
  ghost predicate Subsequence<T>(t: seq<T>, s: seq<T>)
  {
    |t| == 0 ||
    (|s| > 0 &&
      ((t[|t| - 1] == s[|s| - 1] && Subsequence(t[..|t| - 1], s[..|s| - 1])) ||
        Subsequence(t, s[..|s| - 1])))
  }

  /** The second loop only appends: `acc` stays a prefix. */
  lemma {:induction false} AppendMissingKeepsPrefix(acc: seq<Path>, fs: seq<Path>)
    ensures |acc| <= |AppendMissing(acc, fs)|
    ensures AppendMissing(acc, fs)[..|acc|] == acc
  {
    if |fs| > 0 {
      AppendMissingKeepsPrefix(acc, fs[..|fs| - 1]);
    }
  }

  /** Every file of `fs` ends up in the list, and nothing else is added. */
  lemma {:induction false} AppendMissingMembers(acc: seq<Path>, fs: seq<Path>)
    ensures forall p :: p in fs ==> p in AppendMissing(acc, fs)
    ensures forall p :: p in AppendMissing(acc, fs) ==> p in acc || p in fs
  {
    if |fs| > 0 {
      var fs', x := fs[..|fs| - 1], fs[|fs| - 1];
      assert fs == fs' + [x];
      AppendMissingMembers(acc, fs');
    }
  }

  /** What the second loop adds is new (not in `acc`) and free of repeats. */
  lemma {:induction false} AppendMissingAddsFresh(acc: seq<Path>, fs: seq<Path>)
    ensures |acc| <= |AppendMissing(acc, fs)|
    ensures forall i :: |acc| <= i < |AppendMissing(acc, fs)| ==>
              AppendMissing(acc, fs)[i] in fs && AppendMissing(acc, fs)[i] !in acc
    ensures forall i, j :: |acc| <= i < j < |AppendMissing(acc, fs)| ==>
              AppendMissing(acc, fs)[i] != AppendMissing(acc, fs)[j]
  {
    AppendMissingKeepsPrefix(acc, fs);
    if |fs| > 0 {
      var fs', x := fs[..|fs| - 1], fs[|fs| - 1];
      assert fs == fs' + [x];
      AppendMissingAddsFresh(acc, fs');
      AppendMissingKeepsPrefix(acc, fs');
      var s := AppendMissing(acc, fs');
      if x !in s {
        assert acc == s[..|acc|];
        assert x !in acc;
        assert AppendMissing(acc, fs) == s + [x];
      }
    }
  }

  /** What the second loop adds follows the input order. */
  lemma {:induction false} AppendMissingInOrder(acc: seq<Path>, fs: seq<Path>)
    ensures |acc| <= |AppendMissing(acc, fs)|
    ensures Subsequence(AppendMissing(acc, fs)[|acc|..], fs)
  {
    AppendMissingKeepsPrefix(acc, fs);
    if |fs| > 0 {
      var fs', x := fs[..|fs| - 1], fs[|fs| - 1];
      AppendMissingInOrder(acc, fs');
      AppendMissingKeepsPrefix(acc, fs');
      var s := AppendMissing(acc, fs');
      var t := s[|acc|..];
      assert fs[..|fs| - 1] == fs';
      if x in s {
        assert Subsequence(t, fs);
      } else {
        var r := s + [x];
        assert r[|acc|..] == t + [x];
        assert (t + [x])[..|t|] == t;
      }
    }
  }

  /**
   * `ordered` keeps every input file; it starts with the key-hinted files, and what follows
   * are the remaining files, each once, in input order.
   */
  lemma OrderedFacts(files: seq<Path>, keys: seq<string>)
    ensures forall p :: p in files ==> p in Ordered(files, keys)
    ensures forall p :: p in Ordered(files, keys) ==> p in files
    ensures |Hinted(files, keys)| <= |Ordered(files, keys)|
    ensures Ordered(files, keys)[..|Hinted(files, keys)|] == Hinted(files, keys)
    ensures forall i, j :: |Hinted(files, keys)| <= i < j < |Ordered(files, keys)| ==>
              Ordered(files, keys)[i] != Ordered(files, keys)[j]
    ensures forall i :: |Hinted(files, keys)| <= i < |Ordered(files, keys)| ==>
              Ordered(files, keys)[i] !in Hinted(files, keys)
    ensures Subsequence(Ordered(files, keys)[|Hinted(files, keys)|..], files)
  {
    var h := Hinted(files, keys);
    AppendMissingKeepsPrefix(h, files);
    AppendMissingMembers(h, files);
    AppendMissingAddsFresh(h, files);
    AppendMissingInOrder(h, files);
    HintedFacts(files, keys);
  }

  /**
   * The hinted prefix has at most one entry per key, and its k-th entry is the first
   * file matching one of the keys.
   */
  lemma {:induction false} HintedFacts(files: seq<Path>, keys: seq<string>)
    ensures |Hinted(files, keys)| <= |keys|
    ensures forall p :: p in Hinted(files, keys) ==> p in files
    ensures forall p :: p in Hinted(files, keys) ==> exists k :: 0 <= k < |keys| && FirstMatch(files, keys[k]) == Some(p)
  {
    if |keys| > 0 {
      var ks := keys[..|keys| - 1];
      HintedFacts(files, ks);
      FirstMatchIsFirst(files, keys[|keys| - 1]);
      forall p | p in Hinted(files, keys)
        ensures exists k :: 0 <= k < |keys| && FirstMatch(files, keys[k]) == Some(p)
      {
        if p in Hinted(files, ks) {
          var k :| 0 <= k < |ks| && FirstMatch(files, ks[k]) == Some(p);
          assert keys[k] == ks[k];
        } else {
          assert FirstMatch(files, keys[|keys| - 1]) == Some(p);
        }
      }
    }
  }

  /** `ordered` as both loops of the source build it. */
  method OrderByHints(files: seq<Path>, keys: seq<string>) returns (ordered: seq<Path>)
    ensures ordered == Ordered(files, keys)
  {
    ordered := [];
    for k := 0 to |keys|
      invariant ordered == Hinted(files, keys[..k])
    {
      var p := Pick(files, keys[k]);
      if p.Some? {
        ordered := ordered + [p.value];
      }
      assert keys[..k + 1][..k] == keys[..k];
    }
    assert keys[..|keys|] == keys;
    ghost var hinted := ordered;
    for i := 0 to |files|
      invariant ordered == AppendMissing(hinted, files[..i])
    {
      if files[i] !in ordered {
        ordered := ordered + [files[i]];
      }
      assert files[..i + 1][..i] == files[..i];
    }
    assert files[..|files|] == files;
  }

  /**
   * The slot loop: output slot i takes `ordered[i]`, until either the output names or
   * `ordered` run out.
   */
  method SlotPlan(outFiles: seq<string>, ordered: seq<Path>) returns (writes: seq<(string, Path)>)
    ensures |writes| == Min(|outFiles|, |ordered|)
    ensures forall i :: 0 <= i < |writes| ==> writes[i] == (outFiles[i], ordered[i])
  {
    writes := [];
    var i := 0;
    while i < |outFiles|
      invariant i <= |outFiles| && i <= |ordered|
      invariant |writes| == i
      invariant forall k :: 0 <= k < i ==> writes[k] == (outFiles[k], ordered[k])
    {
      if i >= |ordered| {
        break;
      }
      writes := writes + [(outFiles[i], ordered[i])];
      i := i + 1;
    }
  }
}
