/**
 Zone files and the challenge records in them (app/zone_handler.py): which file serves a domain, and
 what adding and removing a challenge record does to the repository.

 A parsed zone is a map from absolute record names and types to sets of values; names are written
 without the final dot, and letter case is significant.
 */
module ZoneHandler {
  import opened Wrappers
  import opened Names

  datatype RType = TXT | OtherType(code: int)

  datatype Key = Key(name: string, rtype: RType)

  type Zone = map<Key, set<string>>

  /**
   The zone directory.  `entries` maps each path that exists, relative to the directory, to the zone
   file it resolves to, or to `None` if it resolves to outside the directory.
   */
  datatype RawRepo = Repo(entries: map<string, Option<string>>, zones: map<string, Zone>)

  type Repo = r: RawRepo | forall p :: p in r.entries && r.entries[p].Some? ==> r.entries[p].value in r.zones
    witness Repo(map[], map[])

  /* ---------- which file serves a domain ---------- */

  const CHALLENGE_PREFIX := "_acme-challenge."

  function Clean(domain: string): string {
    RemovePrefix(RemovePrefix(domain, CHALLENGE_PREFIX), "*.")
  }

  /** The file to which the path resolves, if it exists and stays in the directory. */
  function Usable(r: Repo, path: string): Option<string> {
    if path in r.entries then r.entries[path] else None
  }

  function SearchFrom(r: Repo, labels: seq<string>, i: nat, suffix: string): Option<string>
    requires i <= |labels|
    decreases |labels| - i
  {
    if i == |labels| then None
    else
      var file := Usable(r, Join(labels[i..]) + suffix);
      if file.Some? then file else SearchFrom(r, labels, i + 1, suffix)
  }

  function ResolveZonePath(r: Repo, domain: string, suffix: string): Option<string> {
    SearchFrom(r, Split(Clean(domain)), 0, suffix)
  }

  method ComputeZonePath(r: Repo, domain: string, suffix: string) returns (file: Option<string>)
    ensures file == ResolveZonePath(r, domain, suffix)
  {
    var clean := RemovePrefix(RemovePrefix(domain, CHALLENGE_PREFIX), "*.");
    var labels := Split(clean);
    for i := 0 to |labels|
      invariant ResolveZonePath(r, domain, suffix) == SearchFrom(r, labels, i, suffix)
    {
      var path := Join(labels[i..]) + suffix;
      if path in r.entries {
        if r.entries[path].None? {
          continue;
        }
        return r.entries[path];
      }
    }
    return None;
  }

  /** The part of `s` from `k` on begins at a label, and has a usable zone file. */
  predicate HasZoneAt(r: Repo, s: string, k: int, suffix: string) {
    Boundary(s, k) && s[k..] + suffix in r.entries && r.entries[s[k..] + suffix].Some?
  }

  lemma {:induction false} SearchFinds(r: Repo, labels: seq<string>, i: nat, suffix: string) returns (j: nat)
    requires i <= |labels|
    ensures i <= j <= |labels|
    ensures forall l :: i <= l < j ==> Usable(r, Join(labels[l..]) + suffix).None?
    ensures SearchFrom(r, labels, i, suffix) == if j == |labels| then None else Usable(r, Join(labels[j..]) + suffix)
    ensures j < |labels| ==> Usable(r, Join(labels[j..]) + suffix).Some?
    decreases |labels| - i
  {
    if i == |labels| || Usable(r, Join(labels[i..]) + suffix).Some? {
      j := i;
    } else {
      j := SearchFinds(r, labels, i + 1, suffix);
    }
  }

  /** `f` is the file of the longest suffix of `s`, at a label boundary, that has a usable zone file. */
  ghost predicate LongestSuffixHas(r: Repo, s: string, suffix: string, f: string) {
    exists k :: HasZoneAt(r, s, k, suffix) && r.entries[s[k..] + suffix] == Some(f) &&
      forall l :: l < k ==> !HasZoneAt(r, s, l, suffix)
  }

  /**
   Resolution returns the file of the longest suffix of the cleaned domain, at a label boundary, that
   has a usable zone file, and nothing only if no such suffix has one.
   */
  lemma ResolvesLongestSuffix(r: Repo, domain: string, suffix: string)
    ensures ResolveZonePath(r, domain, suffix).None? <==> forall k :: !HasZoneAt(r, Clean(domain), k, suffix)
    ensures forall f :: ResolveZonePath(r, domain, suffix) == Some(f) <==> LongestSuffixHas(r, Clean(domain), suffix, f)
  {
    var s := Clean(domain);
    var labels := Split(s);
    var j := SearchFinds(r, labels, 0, suffix);
    if j < |labels| {
      var k := FoundIsLongest(r, s, j, suffix);
    } else {
      NoneFound(r, s, suffix);
    }
  }

  lemma FoundIsLongest(r: Repo, s: string, j: nat, suffix: string) returns (k: nat)
    requires j < |Split(s)| && Usable(r, Join(Split(s)[j..]) + suffix).Some?
    requires forall l :: 0 <= l < j ==> Usable(r, Join(Split(s)[l..]) + suffix).None?
    ensures HasZoneAt(r, s, k, suffix) && Usable(r, s[k..] + suffix) == Usable(r, Join(Split(s)[j..]) + suffix)
    ensures forall l :: l < k ==> !HasZoneAt(r, s, l, suffix)
  {
    k := TailIsSuffix(s, j);
    forall l | l < k
      ensures !HasZoneAt(r, s, l, suffix)
    {
      if Boundary(s, l) {
        EarlierTail(s, j, k, l);
      }
    }
  }

  lemma NoneFound(r: Repo, s: string, suffix: string)
    requires forall l :: 0 <= l < |Split(s)| ==> Usable(r, Join(Split(s)[l..]) + suffix).None?
    ensures forall k :: !HasZoneAt(r, s, k, suffix)
  {
    forall k
      ensures !HasZoneAt(r, s, k, suffix)
    {
      if Boundary(s, k) {
        var i := SuffixIsTail(s, k);
      }
    }
  }

  lemma EarlierTail(s: string, j: nat, k: nat, l: int)
    requires j < |Split(s)| && Boundary(s, k) && Join(Split(s)[j..]) == s[k..]
    requires Boundary(s, l) && l < k
    ensures exists i :: 0 <= i < j && Join(Split(s)[i..]) == s[l..]
  {
    var i := SuffixIsTail(s, l);
    if j < i {
      TailsShrink(s, j, i);
    }
  }

  /** A challenge is looked up under the domain itself, and a wildcard's under its base domain. */
  lemma PrefixesAreStripped(r: Repo, domain: string, suffix: string)
    requires !("*." <= domain)
    ensures Clean("_acme-challenge." + domain) == domain == Clean("_acme-challenge.*." + domain)
    ensures !("_acme-challenge." <= domain) ==> Clean(domain) == domain == Clean("*." + domain)
    ensures ResolveZonePath(r, "_acme-challenge.*." + domain, suffix) ==
              ResolveZonePath(r, "_acme-challenge." + domain, suffix)
  {
    RemovesPrefix("_acme-challenge.", domain);
    RemovesPrefix("_acme-challenge.", "*." + domain);
    RemovesPrefix("*.", domain);
    assert "_acme-challenge.*." + domain == "_acme-challenge." + ("*." + domain);
    assert ("*." + domain)[0] != '_';
  }

  lemma RemovesPrefix(p: string, s: string)
    ensures RemovePrefix(p + s, p) == s
  {
    assert (p + s)[|p|..] == s;
  }

  /* ---------- adding and removing a record ---------- */

  /** Some tail of the labels of `name` is the labels of `origin`. */
  predicate IsUnder(name: string, origin: string) {
    exists i :: 0 <= i < |Split(name)| && Split(name)[i..] == Split(origin)
  }

  /** That is: the name is the origin itself, or ends with a dot and the origin. */
  lemma IsUnderIff(name: string, origin: string)
    ensures IsUnder(name, origin) <==>
              name == origin || exists k :: 0 < k <= |name| && name[k - 1] == '.' && name[k..] == origin
  {
    if i :| 0 <= i < |Split(name)| && Split(name)[i..] == Split(origin) {
      var k := TailSplits(name, i);
      JoinSplit(name[k..]);
      JoinSplit(origin);
      assert name[0..] == name;
    }
    if name == origin {
      assert Split(name)[0..] == Split(origin);
    }
    if k :| 0 < k <= |name| && name[k - 1] == '.' && name[k..] == origin {
      var i := SuffixSplits(name, k);
    }
  }

  /** The record name lies in the zone that the file holds, so that looking it up there can succeed. */
  predicate InZone(domain: string, file: string) {
    IsUnder(domain, Stem(file))
  }

  datatype EditError = NoZoneFile | NotInZone

  /** Writes a record, or deletes it if there is nothing to write. */
  function Put(z: Zone, key: Key, values: Option<set<string>>): Zone {
    if values.Some? then z[key := values.value] else z - {key}
  }

  function WithZone(r: Repo, file: string, z: Zone): Repo {
    r.(zones := r.zones[file := z])
  }

  function Write(r: Repo, file: string, key: Key, values: Option<set<string>>): Repo
    requires file in r.zones
  {
    WithZone(r, file, Put(r.zones[file], key, values))
  }

  lemma ResolvedIsZone(r: Repo, domain: string, suffix: string)
    ensures ResolveZonePath(r, domain, suffix).Some? ==> ResolveZonePath(r, domain, suffix).value in r.zones
  {
    var j := SearchFinds(r, Split(Clean(domain)), 0, suffix);
  }

  /** `add_txt_record`: the new repository, or the exception. */
  function AddTxt(r: Repo, domain: string, token: string, suffix: string): Result<Repo, EditError> {
    ResolvedIsZone(r, domain, suffix);
    match ResolveZonePath(r, domain, suffix)
    case None => Failure(NoZoneFile)
    case Some(file) =>
      if !InZone(domain, file) then Failure(NotInZone)
      else Success(Write(r, file, Key(domain, TXT), Some({token})))
  }

  /** The zone in `file` has a challenge record for the domain. */
  predicate Published(r: Repo, file: string, domain: string)
    requires file in r.zones
  {
    InZone(domain, file) && Key(domain, TXT) in r.zones[file]
  }

  /** `remove_txt_record`: the new repository, or `None` if there was nothing to remove. */
  function RemoveTxt(r: Repo, domain: string, suffix: string): Option<Repo> {
    ResolvedIsZone(r, domain, suffix);
    match ResolveZonePath(r, domain, suffix)
    case None => None
    case Some(file) =>
      if Published(r, file, domain) then Some(Write(r, file, Key(domain, TXT), None)) else None
  }

  /* ---------- the challenge name lies in the resolved zone ---------- */

  /** What `AcmeRequest` demands of a domain, as far as it matters here. */
  predicate ChallengeDomain(domain: string) {
    CHALLENGE_PREFIX < domain && '/' !in domain && domain[|domain| - 1] != '.'
  }

  /** No path in the directory is a link. */
  predicate NoLinks(r: Repo) {
    forall p :: p in r.entries ==> r.entries[p] == Some(p)
  }

  lemma CleanIsSuffix(domain: string) returns (k: nat)
    ensures Boundary(domain, k) && Clean(domain) == domain[k..]
  {
    var once := RemovePrefix(domain, CHALLENGE_PREFIX);
    k := 0;
    if CHALLENGE_PREFIX <= domain {
      k := |CHALLENGE_PREFIX|;
      assert domain[k - 1] == '.';
    }
    assert once == domain[k..];
    if "*." <= once {
      assert domain[k + 1] == once[1];
      assert once[2..] == domain[k + 2..];
      k := k + 2;
    }
  }

  /** Without links, the zone file is named after a suffix of the domain, at a label boundary. */
  lemma FileIsNamedAfterSuffix(r: Repo, domain: string, suffix: string) returns (k: nat)
    requires NoLinks(r) && ResolveZonePath(r, domain, suffix).Some?
    ensures Boundary(domain, k) && ResolveZonePath(r, domain, suffix) == Some(domain[k..] + suffix)
  {
    var s := Clean(domain);
    var j := SearchFinds(r, Split(s), 0, suffix);
    var i := TailIsSuffix(s, j);
    var m := CleanIsSuffix(domain);
    k := m + i;
    assert s[i..] == domain[k..];
  }

  lemma SuffixIsUnder(domain: string, k: nat)
    requires Boundary(domain, k)
    ensures IsUnder(domain, domain[k..])
  {
    var i := SuffixSplits(domain, k);
  }

  /** Without links, and with a suffix of one dot and a dot-free text, the record's name is under the zone's origin. */
  lemma ChallengeIsInZone(r: Repo, domain: string, suffix: string)
    requires NoLinks(r) && OneDotSuffix(suffix) && '/' !in suffix && ChallengeDomain(domain)
    ensures var file := ResolveZonePath(r, domain, suffix);
            file.Some? ==> IsUnder(domain, Stem(file.value))
  {
    if ResolveZonePath(r, domain, suffix).Some? {
      var k := FileIsNamedAfterSuffix(r, domain, suffix);
      StemDropsSuffix(domain[k..], suffix);
      SuffixIsUnder(domain, k);
    }
  }

  /* ---------- the challenge store ---------- */

  /** The challenge values published for a domain. */
  function View(r: Repo, suffix: string, domain: string): set<string> {
    ResolvedIsZone(r, domain, suffix);
    match ResolveZonePath(r, domain, suffix)
    case None => {}
    case Some(file) => if Published(r, file, domain) then r.zones[file][Key(domain, TXT)] else {}
  }

  /** The two repositories agree on all but one record of one file. */
  predicate SameExcept(r: Repo, r': Repo, file: string, key: Key) {
    && r'.entries == r.entries && r'.zones.Keys == r.zones.Keys
    && (forall f :: f in r.zones && f != file ==> r'.zones[f] == r.zones[f])
    && (file in r.zones ==> r'.zones[file] - {key} == r.zones[file] - {key})
  }

  lemma {:induction false} SameEntriesSameFile(r: Repo, r': Repo, labels: seq<string>, i: nat, suffix: string)
    requires r'.entries == r.entries && i <= |labels|
    ensures SearchFrom(r', labels, i, suffix) == SearchFrom(r, labels, i, suffix)
    decreases |labels| - i
  {
    if i < |labels| {
      SameEntriesSameFile(r, r', labels, i + 1, suffix);
    }
  }

  lemma SameEntriesSameResolution(r: Repo, r': Repo, domain: string, suffix: string)
    requires r'.entries == r.entries
    ensures ResolveZonePath(r', domain, suffix) == ResolveZonePath(r, domain, suffix)
  {
    SameEntriesSameFile(r, r', Split(Clean(domain)), 0, suffix);
  }

  lemma OtherRecordKept(r: Repo, r': Repo, file: string, key: Key, f: string, other: Key)
    requires SameExcept(r, r', file, key) && f in r.zones && other != key
    ensures f in r'.zones && (other in r'.zones[f] <==> other in r.zones[f])
    ensures other in r.zones[f] ==> r'.zones[f][other] == r.zones[f][other]
  {
    if f == file {
      assert other in r'.zones[f] <==> other in r'.zones[f] - {key};
      assert other in r.zones[f] <==> other in r.zones[f] - {key};
      assert other in r.zones[f] ==> r'.zones[f][other] == (r'.zones[f] - {key})[other];
    }
  }

  /** Editing one record changes no other domain's challenge. */
  lemma OtherViewsKept(r: Repo, r': Repo, suffix: string, file: string, key: Key, domain: string)
    requires SameExcept(r, r', file, key) && key != Key(domain, TXT)
    ensures View(r', suffix, domain) == View(r, suffix, domain)
  {
    SameEntriesSameResolution(r, r', domain, suffix);
    ResolvedIsZone(r, domain, suffix);
    if ResolveZonePath(r, domain, suffix).Some? {
      OtherRecordKept(r, r', file, key, ResolveZonePath(r, domain, suffix).value, Key(domain, TXT));
    }
  }

  /**
   Adding is insert-or-replace in the map from challenge names to values; `e` is any other domain.  It
   fails exactly if no zone file serves the domain, or one to whose zone the name does not belong.
   */
  lemma AddInsertsOrReplaces(r: Repo, domain: string, token: string, suffix: string, e: string)
    ensures var file, added := ResolveZonePath(r, domain, suffix), AddTxt(r, domain, token, suffix);
            && (file.None? <==> added == Failure(NoZoneFile))
            && (file.Some? && !IsUnder(domain, Stem(file.value)) <==> added == Failure(NotInZone))
    ensures AddTxt(r, domain, token, suffix).Success? ==>
              var r' := AddTxt(r, domain, token, suffix).value;
              && SameExcept(r, r', ResolveZonePath(r, domain, suffix).value, Key(domain, TXT))
              && View(r', suffix, domain) == {token}
              && (e != domain ==> View(r', suffix, e) == View(r, suffix, e))
  {
    ResolvedIsZone(r, domain, suffix);
    if AddTxt(r, domain, token, suffix).Success? {
      WrittenViews(r, ResolveZonePath(r, domain, suffix).value, domain, Some({token}), suffix, e);
    }
  }

  lemma WriteChangesOneRecord(r: Repo, file: string, key: Key, values: Option<set<string>>)
    requires file in r.zones
    ensures SameExcept(r, Write(r, file, key, values), file, key)
  {
    assert Put(r.zones[file], key, values) - {key} == r.zones[file] - {key};
  }

  /** What writing the record of a domain, in the file that serves it, does to the challenges published. */
  lemma WrittenViews(r: Repo, file: string, domain: string, values: Option<set<string>>, suffix: string, e: string)
    requires file in r.zones && ResolveZonePath(r, domain, suffix) == Some(file) && InZone(domain, file)
    ensures var r' := Write(r, file, Key(domain, TXT), values);
            && SameExcept(r, r', file, Key(domain, TXT))
            && View(r', suffix, domain) == (if values.Some? then values.value else {})
            && (e != domain ==> View(r', suffix, e) == View(r, suffix, e))
  {
    WriteChangesOneRecord(r, file, Key(domain, TXT), values);
    OwnViewWritten(r, file, domain, values, suffix);
    if e != domain {
      OtherViewsKept(r, Write(r, file, Key(domain, TXT), values), suffix, file, Key(domain, TXT), e);
    }
  }

  lemma OwnViewWritten(r: Repo, file: string, domain: string, values: Option<set<string>>, suffix: string)
    requires file in r.zones && ResolveZonePath(r, domain, suffix) == Some(file) && InZone(domain, file)
    ensures View(Write(r, file, Key(domain, TXT), values), suffix, domain) ==
              if values.Some? then values.value else {}
  {
    SameEntriesSameResolution(r, Write(r, file, Key(domain, TXT), values), domain, suffix);
  }

  /**
   Removing is delete, in the file that the domain's addition wrote; it reports whether the record
   was there.  `e` is any other domain.
   */
  lemma RemoveDeletes(r: Repo, domain: string, suffix: string, e: string)
    ensures var file := ResolveZonePath(r, domain, suffix);
            && (file.Some? ==> file.value in r.zones)
            && (RemoveTxt(r, domain, suffix).Some? <==>
                  file.Some? && IsUnder(domain, Stem(file.value)) && Key(domain, TXT) in r.zones[file.value])
    ensures RemoveTxt(r, domain, suffix).None? ==> View(r, suffix, domain) == {}
    ensures RemoveTxt(r, domain, suffix).Some? ==>
              var r' := RemoveTxt(r, domain, suffix).value;
              && SameExcept(r, r', ResolveZonePath(r, domain, suffix).value, Key(domain, TXT))
              && View(r', suffix, domain) == {}
              && (e != domain ==> View(r', suffix, e) == View(r, suffix, e))
  {
    ResolvedIsZone(r, domain, suffix);
    if RemoveTxt(r, domain, suffix).Some? {
      WrittenViews(r, ResolveZonePath(r, domain, suffix).value, domain, None, suffix, e);
    }
  }

  /** A cleanup hits the file and record that the authorization wrote, and restores a record-free repository exactly. */
  lemma RemoveUndoesAdd(r: Repo, domain: string, token: string, suffix: string)
    requires AddTxt(r, domain, token, suffix).Success?
    ensures var added := AddTxt(r, domain, token, suffix).value;
            var removed := RemoveTxt(added, domain, suffix);
            && ResolveZonePath(added, domain, suffix) == ResolveZonePath(r, domain, suffix)
            && removed.Some?
            && (RemoveTxt(r, domain, suffix).Some? ==> removed == RemoveTxt(r, domain, suffix))
            && (RemoveTxt(r, domain, suffix).None? ==> removed.value == r)
  {
    var added := AddTxt(r, domain, token, suffix).value;
    ResolvedIsZone(r, domain, suffix);
    var file, key := ResolveZonePath(r, domain, suffix).value, Key(domain, TXT);
    SameEntriesSameResolution(r, added, domain, suffix);
    PutTwice(r.zones[file], key, {token});
    UpdateTwice(r.zones, file, Put(r.zones[file], key, Some({token})), Put(r.zones[file], key, None));
    RemoveNothing(r, file, key);
  }

  lemma PutTwice(z: Zone, key: Key, values: set<string>)
    ensures Put(Put(z, key, Some(values)), key, None) == Put(z, key, None)
  {
    assert z[key := values] - {key} == z - {key};
  }

  /* ---------- challenge operations ---------- */

  datatype Op = Auth(domain: string, token: string) | Cleanup(domain: string)

  datatype Outcome = Added | Removed | Skipped | EditFailed(error: EditError) | GitFailed | Busy

  /** The effect of one request on the repository it edits, and its outcome. */
  function Perform(r: Repo, op: Op, suffix: string): (Repo, Outcome) {
    match op
    case Auth(domain, token) =>
      (match AddTxt(r, domain, token, suffix)
       case Success(r') => (r', Added)
       case Failure(error) => (r, EditFailed(error)))
    case Cleanup(domain) =>
      match RemoveTxt(r, domain, suffix)
      case Some(r') => (r', Removed)
      case None => (r, Skipped)
  }

  /** The challenges that the operation leaves for a domain which had `before`. */
  function Expected(before: set<string>, op: Op, failed: bool, domain: string): set<string> {
    if op.domain != domain || failed then before
    else match op
         case Auth(_, token) => {token}
         case Cleanup(_) => {}
  }

  /** Every operation acts on the challenge store as on a plain map from domains to values. */
  lemma PerformRefinesMap(r: Repo, op: Op, suffix: string, e: string)
    ensures var (r', outcome) := Perform(r, op, suffix);
            View(r', suffix, e) == Expected(View(r, suffix, e), op, outcome.EditFailed?, e)
  {
    match op {
      case Auth(domain, token) =>
        if AddTxt(r, domain, token, suffix).Success? {
          AddInsertsOrReplaces(r, domain, token, suffix, e);
        }
      case Cleanup(domain) =>
        RemoveDeletes(r, domain, suffix, e);
    }
  }

  /** An operation touches no record but its own, in the file its domain resolves to, and that only if it reports so. */
  lemma PerformTouchesOneRecord(r: Repo, op: Op, suffix: string)
    ensures var (r', outcome) := Perform(r, op, suffix);
            if outcome.EditFailed? || outcome.Skipped? then r' == r
            else
              && ResolveZonePath(r, op.domain, suffix).Some?
              && SameExcept(r, r', ResolveZonePath(r, op.domain, suffix).value, Key(op.domain, TXT))
  {
    match op {
      case Auth(domain, token) =>
        if AddTxt(r, domain, token, suffix).Success? {
          AddInsertsOrReplaces(r, domain, token, suffix, domain);
        }
      case Cleanup(domain) =>
        RemoveDeletes(r, domain, suffix, domain);
    }
  }

  function WrittenBy(op: Op): Option<set<string>> {
    if op.Auth? then Some({op.token}) else None
  }

  /** The error with which the operation fails on these entries, if it does; the zones' contents do not matter. */
  function FailureOf(r: Repo, op: Op, suffix: string): Option<EditError> {
    match ResolveZonePath(r, op.domain, suffix)
    case None => if op.Auth? then Some(NoZoneFile) else None
    case Some(file) => if op.Auth? && !InZone(op.domain, file) then Some(NotInZone) else None
  }

  lemma PerformIsWrite(r: Repo, op: Op, suffix: string)
    ensures var file := ResolveZonePath(r, op.domain, suffix);
            var key := Key(op.domain, TXT);
            && (file.Some? ==> file.value in r.zones)
            && Perform(r, op, suffix) ==
                 if FailureOf(r, op, suffix).Some? then (r, EditFailed(FailureOf(r, op, suffix).value))
                 else if file.None? || !InZone(op.domain, file.value) then (r, Skipped)
                 else (Write(r, file.value, key, WrittenBy(op)),
                       if op.Auth? then Added else if key in r.zones[file.value] then Removed else Skipped)
  {
    ResolvedIsZone(r, op.domain, suffix);
    if op.Cleanup? && ResolveZonePath(r, op.domain, suffix).Some? {
      RemoveNothing(r, ResolveZonePath(r, op.domain, suffix).value, Key(op.domain, TXT));
    }
  }

  lemma RemoveNothing(r: Repo, file: string, key: Key)
    requires file in r.zones
    ensures key !in r.zones[file] ==> Write(r, file, key, None) == r
  {
    if key !in r.zones[file] {
      assert r.zones[file] - {key} == r.zones[file];
      assert r.zones[file := r.zones[file]] == r.zones;
    }
  }

  lemma PutsCommute(z: Zone, k: Key, v: Option<set<string>>, l: Key, u: Option<set<string>>)
    requires k != l
    ensures Put(Put(z, k, v), l, u) == Put(Put(z, l, u), k, v)
    ensures l in Put(z, k, v) <==> l in z
  {
  }

  lemma WritesCommute(r: Repo, f: string, k: Key, v: Option<set<string>>, g: string, l: Key, u: Option<set<string>>)
    requires f in r.zones && g in r.zones && k != l
    ensures Write(Write(r, f, k, v), g, l, u) == Write(Write(r, g, l, u), f, k, v)
    ensures l in Write(r, f, k, v).zones[g] <==> l in r.zones[g]
  {
    PutsCommute(r.zones[f], k, v, l, u);
    if f == g {
      UpdateTwice(r.zones, f, Put(r.zones[f], k, v), Put(Put(r.zones[f], k, v), l, u));
      UpdateTwice(r.zones, f, Put(r.zones[f], l, u), Put(Put(r.zones[f], l, u), k, v));
    } else {
      UpdatesCommute(r.zones, f, Put(r.zones[f], k, v), g, Put(r.zones[g], l, u));
    }
  }

  lemma UpdateTwice(m: map<string, Zone>, f: string, x: Zone, y: Zone)
    ensures m[f := x][f := y] == m[f := y]
  {
  }

  lemma UpdatesCommute(m: map<string, Zone>, f: string, x: Zone, g: string, y: Zone)
    requires f != g
    ensures m[f := x][g := y] == m[g := y][f := x]
  {
  }

  lemma PerformKeepsResolution(r: Repo, op: Op, suffix: string, domain: string)
    ensures ResolveZonePath(Perform(r, op, suffix).0, domain, suffix) == ResolveZonePath(r, domain, suffix)
  {
    PerformTouchesOneRecord(r, op, suffix);
    SameEntriesSameResolution(r, Perform(r, op, suffix).0, domain, suffix);
  }

  /** Operations on different domains commute, in effect and in outcome. */
  lemma DifferentDomainsCommute(r: Repo, a: Op, b: Op, suffix: string)
    requires a.domain != b.domain
    ensures var (ra, oa) := Perform(r, a, suffix);
            var (rb, ob) := Perform(r, b, suffix);
            && Perform(ra, b, suffix).0 == Perform(rb, a, suffix).0
            && Perform(ra, b, suffix).1 == ob && Perform(rb, a, suffix).1 == oa
  {
    var ra, rb := Perform(r, a, suffix).0, Perform(r, b, suffix).0;
    PerformKeepsResolution(r, a, suffix, b.domain);
    PerformKeepsResolution(r, b, suffix, a.domain);
    PerformIsWrite(r, a, suffix);
    PerformIsWrite(r, b, suffix);
    PerformIsWrite(ra, b, suffix);
    PerformIsWrite(rb, a, suffix);
    var fa, fb := ResolveZonePath(r, a.domain, suffix), ResolveZonePath(r, b.domain, suffix);
    if fa.Some? && fb.Some? {
      var ka, kb := Key(a.domain, TXT), Key(b.domain, TXT);
      WritesCommute(r, fa.value, ka, WrittenBy(a), fb.value, kb, WrittenBy(b));
      WritesCommute(r, fb.value, kb, WrittenBy(b), fa.value, ka, WrittenBy(a));
    }
  }
}
