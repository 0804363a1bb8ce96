/** The string operations of zone resolution: Python's `split`, `join` and `removeprefix` on dots, and `Path.stem`. */
module Names {

  /* ---------- split and join ---------- */

  /** `s.split(".")` */
  function Split(s: string): (labels: seq<string>)
    ensures |labels| > 0
  {
    if s == "" then [""]
    else
      var rest := Split(s[1..]);
      if s[0] == '.' then [""] + rest else [[s[0]] + rest[0]] + rest[1..]
  }

  /** `".".join(labels)` */
  function Join(labels: seq<string>): string {
    if labels == [] then "" else if |labels| == 1 then labels[0] else labels[0] + "." + Join(labels[1..])
  }

  /** `s.removeprefix(p)` */
  function RemovePrefix(s: string, p: string): string {
    if p <= s then s[|p|..] else s
  }

  /** A label of `s` begins at `k`. */
  predicate Boundary(s: string, k: int) {
    0 <= k <= |s| && (k == 0 || s[k - 1] == '.')
  }

  lemma JoinCons(first: string, labels: seq<string>)
    requires labels != []
    ensures Join([first] + labels) == first + "." + Join(labels)
  {
    assert ([first] + labels)[1..] == labels;
  }

  lemma JoinLonger(c: char, labels: seq<string>)
    requires labels != []
    ensures Join([[c] + labels[0]] + labels[1..]) == [c] + Join(labels)
  {
    var longer := [[c] + labels[0]] + labels[1..];
    assert longer[1..] == labels[1..];
  }

  lemma {:induction false} JoinSplit(s: string)
    ensures Join(Split(s)) == s
  {
    if s != "" {
      JoinSplit(s[1..]);
      JoinCons("", Split(s[1..]));
      JoinLonger(s[0], Split(s[1..]));
    }
  }

  lemma SplitTail(s: string, i: nat)
    requires 0 < i < |Split(s)|
    ensures s != ""
    ensures var j := if s[0] == '.' then i - 1 else i;
            j < |Split(s[1..])| && Split(s)[i..] == Split(s[1..])[j..]
  {
    var rest := Split(s[1..]);
    if s[0] == '.' {
      TailOfCons("", rest, i);
    } else {
      TailOfCons([s[0]] + rest[0], rest[1..], i);
      assert rest[1..][i - 1..] == rest[i..];
    }
  }

  lemma TailOfCons(first: string, labels: seq<string>, i: nat)
    requires 0 < i <= |labels| + 1
    ensures ([first] + labels)[i..] == labels[i - 1..]
  {
  }

  /** The labels from the `i`-th on are those of a suffix at a label boundary. */
  lemma {:induction false} TailSplits(s: string, i: nat) returns (k: nat)
    requires i < |Split(s)|
    ensures Boundary(s, k) && Split(s)[i..] == Split(s[k..])
    ensures i > 0 ==> k > 0
  {
    if i == 0 {
      k := 0;
      assert s[0..] == s;
    } else {
      var rest := s[1..];
      SplitTail(s, i);
      var j := TailSplits(rest, if s[0] == '.' then i - 1 else i);
      k := j + 1;
      assert s[k..] == rest[j..];
    }
  }

  /** Every suffix at a label boundary is such a tail. */
  lemma {:induction false} SuffixSplits(s: string, k: nat) returns (i: nat)
    requires Boundary(s, k)
    ensures i < |Split(s)| && Split(s)[i..] == Split(s[k..])
    ensures k > 0 ==> i > 0
  {
    if k == 0 {
      i := 0;
      assert s[0..] == s;
    } else {
      var rest := s[1..];
      var j := SuffixSplits(rest, k - 1);
      i := if s[0] == '.' then j + 1 else j;
      assert s[k..] == rest[k - 1..];
    }
  }

  /** Joining the labels from the `i`-th on gives a suffix at a label boundary. */
  lemma TailIsSuffix(s: string, i: nat) returns (k: nat)
    requires i < |Split(s)|
    ensures Boundary(s, k) && Join(Split(s)[i..]) == s[k..]
  {
    k := TailSplits(s, i);
    JoinSplit(s[k..]);
  }

  /** Every suffix at a label boundary is what joining some tail gives. */
  lemma SuffixIsTail(s: string, k: nat) returns (i: nat)
    requires Boundary(s, k)
    ensures i < |Split(s)| && Join(Split(s)[i..]) == s[k..]
  {
    i := SuffixSplits(s, k);
    JoinSplit(s[k..]);
  }

  /** Tails start further and further to the right. */
  lemma TailsShrink(s: string, i: nat, j: nat)
    requires i < j < |Split(s)|
    ensures |Join(Split(s)[i..])| > |Join(Split(s)[j..])|
  {
    JoinTailShorter(Split(s)[i..], j - i);
    assert Split(s)[i..][j - i..] == Split(s)[j..];
  }

  lemma {:induction false} JoinTailShorter(labels: seq<string>, i: nat)
    requires 0 < i < |labels|
    ensures |Join(labels)| > |Join(labels[i..])|
  {
    if i > 1 {
      JoinTailShorter(labels[1..], i - 1);
      assert labels[1..][i - 1..] == labels[i..];
    }
  }

  /* ---------- file names ---------- */

  /** The index of the last `c`, or -1. */
  function FindLast(s: string, c: char): (i: int)
    ensures -1 <= i < |s| && (i >= 0 ==> s[i] == c)
    ensures forall k :: i < k < |s| ==> s[k] != c
  {
    if s == [] then -1 else if s[|s| - 1] == c then |s| - 1 else FindLast(s[..|s| - 1], c)
  }

  /** The last component of a relative path. */
  function FileName(path: string): string {
    path[FindLast(path, '/') + 1..]
  }

  /** `Path(path).stem` */
  function Stem(path: string): string {
    var name := FileName(path);
    var i := FindLast(name, '.');
    if 0 < i < |name| - 1 then name[..i] else name
  }

  /** One dot followed by a dot-free text. */
  predicate OneDotSuffix(suffix: string) {
    |suffix| > 1 && suffix[0] == '.' && '.' !in suffix[1..]
  }

  lemma StemDropsSuffix(name: string, suffix: string)
    requires name != "" && '/' !in name && '/' !in suffix && OneDotSuffix(suffix)
    ensures Stem(name + suffix) == name
  {
    var file := name + suffix;
    NoDirectory(name, suffix);
    assert forall k :: |name| < k < |file| ==> file[k] == suffix[1..][k - |name| - 1];
    assert file[|name|] == '.';
    assert FindLast(file, '.') == |name|;
  }

  lemma NoDirectory(name: string, suffix: string)
    requires '/' !in name && '/' !in suffix
    ensures FileName(name + suffix) == name + suffix
  {
    var file := name + suffix;
    assert forall k :: 0 <= k < |file| ==> file[k] == if k < |name| then name[k] else suffix[k - |name|];
  }

  /** The stem of the zone file for `name` is `name`. */
  predicate StemIsName(name: string, suffix: string) {
    Stem(name + suffix) == name
  }

  /** The stem of every zone file is the zone's name, exactly for suffixes of one dot and a dot-free text. */
  lemma StemIsZoneNameIff(suffix: string)
    requires '/' !in suffix
    ensures OneDotSuffix(suffix) <==> forall name :: name != "" && '/' !in name ==> StemIsName(name, suffix)
  {
    if OneDotSuffix(suffix) {
      forall name | name != "" && '/' !in name
        ensures StemIsName(name, suffix)
      {
        StemDropsSuffix(name, suffix);
      }
    } else {
      var name := StemIsNotName(suffix);
    }
  }

  lemma StemIsNotName(suffix: string) returns (name: string)
    requires !OneDotSuffix(suffix) && '/' !in suffix
    ensures name != "" && '/' !in name && !StemIsName(name, suffix)
  {
    name := if suffix == "" then ['a', '.', 'b'] else ['a'];
    if suffix == "" {
      assert name + suffix == name;
      StemOfDotted(name);
    } else {
      StemKeepsOther(name, suffix);
    }
  }

  lemma StemOfDotted(file: string)
    requires |file| == 3 && file[0] != '.' && file[1] == '.' && file[2] != '.' && '/' !in file
    ensures Stem(file) == file[..1]
  {
    assert FindLast(file, '/') == -1;
    assert file[0..] == file;
    assert FindLast(file, '.') == 1;
  }

  lemma StemKeepsOther(name: string, suffix: string)
    requires |name| == 1 && name[0] != '.' && '/' !in name
    requires !OneDotSuffix(suffix) && suffix != "" && '/' !in suffix
    ensures Stem(name + suffix) != name
  {
    var file := name + suffix;
    NoDirectory(name, suffix);
    assert FindLast(file, '.') == 1 ==> |suffix| == 1 by {
      if FindLast(file, '.') == 1 {
        assert file[1] == suffix[0];
        assert forall k :: 0 <= k < |suffix[1..]| ==> suffix[1..][k] == file[k + 2];
      }
    }
    assert |Stem(file)| != 1;
  }
}
