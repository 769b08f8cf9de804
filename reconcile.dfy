/**
 * One dirsync: the server's listing of a directory (GETDIR) is validated
 * row by row and sorted by name, the local listing likewise, and the two
 * sorted listings are merged.  Every server entry is handed to cp; a name
 * present only locally is deleted when deletion is enabled; every server
 * subdirectory is scheduled as a new dirsync job.
 */
module Reconcile {
  import opened Types
  import opened Events
  import opened Dirsync

  // ---------------------------------------------------------------------
  // strcmp

  /** strcmp reduced to its sign: bytes compare as unsigned, and a proper
   *  prefix comes first. */
  function Compare(a: string, b: string): (r: int)
    ensures -1 <= r <= 1
    ensures r == 0 <==> a == b
  {
    if a == [] && b == [] then 0
    else if a == [] then -1
    else if b == [] then 1
    else if a[0] < b[0] then -1
    else if a[0] > b[0] then 1
    else
      var r := Compare(a[1..], b[1..]);
      assert a == [a[0]] + a[1..] && b == [b[0]] + b[1..];
      r
  }

  lemma {:induction false} CompareFlip(a: string, b: string)
    ensures Compare(b, a) == -Compare(a, b)
    decreases |a|
  {
    if a != [] && b != [] && a[0] == b[0] {
      CompareFlip(a[1..], b[1..]);
    }
  }

  lemma {:induction false} CompareTrans(a: string, b: string, c: string)
    requires Compare(a, b) < 0 && Compare(b, c) < 0
    ensures Compare(a, c) < 0
    decreases |a|
  {
    if a != [] && b != [] && c != [] && a[0] == b[0] && b[0] == c[0] {
      CompareTrans(a[1..], b[1..], c[1..]);
    }
  }

  lemma CompareTransLe(a: string, b: string, c: string)
    requires Compare(a, b) <= 0 && Compare(b, c) <= 0
    ensures Compare(a, c) <= 0
  {
    if a != b && b != c {
      CompareTrans(a, b, c);
    }
  }

  // ---------------------------------------------------------------------
  // Listings

  /** One entry of a directory listing: a name, its file type, the target
   *  when it is a symbolic link, and its stat fields. */
  datatype Entry = Entry(name: string, fileType: FileType, target: Option<string>, stat: Stat)

  /** The order compare_dir gives to qsort. */
  predicate Sorted(s: seq<Entry>)
  {
    forall i, j :: 0 <= i < j < |s| ==> Compare(s[i].name, s[j].name) <= 0
  }

  predicate StrictlySorted(s: seq<Entry>)
  {
    forall i, j :: 0 <= i < j < |s| ==> Compare(s[i].name, s[j].name) < 0
  }

  predicate DistinctNames(s: seq<Entry>)
  {
    forall i, j :: 0 <= i < j < |s| ==> s[i].name != s[j].name
  }

  /** e placed before the first entry of s that does not sort below it. */
  function Insert(e: Entry, s: seq<Entry>): (r: seq<Entry>)
    ensures multiset(r) == multiset(s) + multiset{e}
  {
    if s == [] then [e]
    else if Compare(e.name, s[0].name) <= 0 then [e] + s
    else
      var t := Insert(e, s[1..]);
      assert s == [s[0]] + s[1..];
      [s[0]] + t
  }

  /** A reference sort by name (qsort with compare_dir). */
  function Sort(s: seq<Entry>): (r: seq<Entry>)
    ensures multiset(r) == multiset(s)
  {
    if s == [] then []
    else
      assert s == [s[0]] + s[1..];
      Insert(s[0], Sort(s[1..]))
  }

  /** Every name of s sorts at or above x. */
  ghost predicate Below(x: string, s: seq<Entry>)
  {
    forall k :: 0 <= k < |s| ==> Compare(x, s[k].name) <= 0
  }

  lemma ConsSorted(x: Entry, u: seq<Entry>)
    requires Below(x.name, u) && Sorted(u)
    ensures Sorted([x] + u)
  {
    var t := [x] + u;
    forall i, j | 0 <= i < j < |t|
      ensures Compare(t[i].name, t[j].name) <= 0
    {
      assert t[j] == u[j - 1];
      if i > 0 {
        assert t[i] == u[i - 1];
      }
    }
  }

  lemma SortedTail(s: seq<Entry>)
    requires s != [] && Sorted(s)
    ensures Sorted(s[1..]) && Below(s[0].name, s[1..])
  {
    forall i, j | 0 <= i < j < |s[1..]|
      ensures Compare(s[1..][i].name, s[1..][j].name) <= 0
    {
      assert s[1..][i] == s[i + 1] && s[1..][j] == s[j + 1];
    }
    forall k | 0 <= k < |s[1..]|
      ensures Compare(s[0].name, s[1..][k].name) <= 0
    {
      assert s[1..][k] == s[k + 1];
    }
  }

  lemma {:induction false} InsertBelow(x: string, e: Entry, s: seq<Entry>)
    requires Compare(x, e.name) <= 0 && Below(x, s)
    ensures Below(x, Insert(e, s))
    decreases |s|
  {
    if s != [] && Compare(e.name, s[0].name) > 0 {
      assert Below(x, s[1..]) by {
        forall k | 0 <= k < |s[1..]|
          ensures Compare(x, s[1..][k].name) <= 0
        {
          assert s[1..][k] == s[k + 1];
        }
      }
      InsertBelow(x, e, s[1..]);
      var u := Insert(e, s[1..]);
      forall k | 0 <= k < |[s[0]] + u|
        ensures Compare(x, ([s[0]] + u)[k].name) <= 0
      {
        if k > 0 {
          assert ([s[0]] + u)[k] == u[k - 1];
        }
      }
    } else if s != [] {
      forall k | 0 <= k < |[e] + s|
        ensures Compare(x, ([e] + s)[k].name) <= 0
      {
        if k > 0 {
          assert ([e] + s)[k] == s[k - 1];
        }
      }
    }
  }

  lemma {:induction false} InsertSorted(e: Entry, s: seq<Entry>)
    requires Sorted(s)
    ensures Sorted(Insert(e, s))
    decreases |s|
  {
    if s != [] && Compare(e.name, s[0].name) > 0 {
      SortedTail(s);
      InsertSorted(e, s[1..]);
      CompareFlip(e.name, s[0].name);
      InsertBelow(s[0].name, e, s[1..]);
      ConsSorted(s[0], Insert(e, s[1..]));
    } else if s != [] {
      SortedTail(s);
      forall k | 0 <= k < |s|
        ensures Compare(e.name, s[k].name) <= 0
      {
        if k > 0 {
          assert s[k] == s[1..][k - 1];
          CompareTransLe(e.name, s[0].name, s[k].name);
        }
      }
      ConsSorted(e, s);
    }
  }

  /** Sort gives a sorted permutation of its input. */
  lemma {:induction false} SortSorted(s: seq<Entry>)
    ensures Sorted(Sort(s)) && multiset(Sort(s)) == multiset(s)
    decreases |s|
  {
    if s != [] {
      SortSorted(s[1..]);
      InsertSorted(s[0], Sort(s[1..]));
    }
  }

  /** With distinct names the sorted order is strict. */
  lemma SortedDistinctStrict(s: seq<Entry>)
    requires Sorted(s) && DistinctNames(s)
    ensures StrictlySorted(s)
  {
  }

  lemma {:induction false} InsertDistinct(e: Entry, s: seq<Entry>)
    requires DistinctNames(s)
    requires forall k :: 0 <= k < |s| ==> s[k].name != e.name
    ensures DistinctNames(Insert(e, s))
    decreases |s|
  {
    if s != [] && Compare(e.name, s[0].name) > 0 {
      InsertDistinct(e, s[1..]);
      var u := Insert(e, s[1..]);
      var t := [s[0]] + u;
      forall i, j | 0 <= i < j < |t|
        ensures t[i].name != t[j].name
      {
        if i == 0 {
          assert t[j] in multiset(u);
          if t[j] != e {
            assert t[j] in multiset(s[1..]);
            var k :| 0 <= k < |s[1..]| && s[1..][k] == t[j];
            assert s[k + 1] == t[j];
          }
        } else {
          assert t[i] == u[i - 1] && t[j] == u[j - 1];
        }
      }
    } else if s != [] {
      var t := [e] + s;
      forall i, j | 0 <= i < j < |t|
        ensures t[i].name != t[j].name
      {
        if i > 0 {
          assert t[i] == s[i - 1] && t[j] == s[j - 1];
        } else {
          assert t[j] == s[j - 1];
        }
      }
    }
  }

  /** Sorting keeps the names distinct. */
  lemma {:induction false} SortDistinct(s: seq<Entry>)
    requires DistinctNames(s)
    ensures DistinctNames(Sort(s))
    decreases |s|
  {
    if s != [] {
      var rest := s[1..];
      assert DistinctNames(rest) by {
        forall i, j | 0 <= i < j < |rest|
          ensures rest[i].name != rest[j].name
        {
          assert rest[i] == s[i + 1] && rest[j] == s[j + 1];
        }
      }
      SortDistinct(rest);
      var sr := Sort(rest);
      forall k | 0 <= k < |sr|
        ensures sr[k].name != s[0].name
      {
        assert sr[k] in multiset(rest);
        var m :| 0 <= m < |rest| && rest[m] == sr[k];
        assert s[m + 1] == sr[k];
      }
      InsertDistinct(s[0], sr);
    }
  }

  // ---------------------------------------------------------------------
  // get_server_dir: the rows of a GETDIR reply

  /** The header fields of one listing row, as sscanf and strptime leave
   *  them: the type code, the two name lengths, where the timestamp parse
   *  stopped (None when it failed) and where the timestamp field ends. */
  datatype RawRow = RawRow(typeCode: int, fromLength: int, toLength: int,
                           mtimeEnd: Option<int>, mtimeFieldEnd: int, stat: Stat)

  /** One line of the reply: the "." terminator, a read failure, or a row
   *  with the name (and the link target when the row announces one) read
   *  after it; None when that read fails. */
  datatype DirLine = EndOfListing | LostConnection | Listed(row: RawRow, name: Option<string>, target: Option<string>)

  /** The row checks: a name of at least one byte, a target length that is
   *  not negative, a type code in 0..7, and a timestamp that parses to the
   *  end of its field. */
  predicate RowValid(row: RawRow)
  {
    row.fromLength >= 1 && row.toLength >= 0 && FileTypeOfCode(row.typeCode).Some? &&
    row.mtimeEnd == Some(row.mtimeFieldEnd)
  }

  /** A valid row whose names could be read. */
  predicate LineUsable(l: DirLine)
  {
    l.Listed? && RowValid(l.row) && l.name.Some? && (l.row.toLength > 0 ==> l.target.Some?)
  }

  /** The entry a usable row stores. */
  function Decode(l: DirLine): (e: Entry)
    requires LineUsable(l)
    ensures e.name == l.name.value && Some(e.fileType) == FileTypeOfCode(l.row.typeCode)
    ensures e.target.Some? <==> l.row.toLength > 0
  {
    Entry(l.name.value, FileTypeOfCode(l.row.typeCode).value,
          if l.row.toLength > 0 then Some(l.target.value) else None, l.row.stat)
  }

  /** The rows of a reply up to its terminator, None when a row is bad, a
   *  read fails or the terminator never comes: once one row is bad the
   *  whole listing is lost. */
  function Walk(lines: seq<DirLine>): Option<seq<Entry>>
  {
    if lines == [] then None
    else if lines[0].EndOfListing? then Some([])
    else if !LineUsable(lines[0]) then None
    else match Walk(lines[1..])
      case None => None
      case Some(es) => Some([Decode(lines[0])] + es)
  }

  /** The listing get_server_dir returns: the entries sorted, or None. */
  function ServerListing(lines: seq<DirLine>): Option<seq<Entry>>
  {
    match Walk(lines)
    case None => None
    case Some(es) => Some(Sort(es))
  }

  /** Line t is the terminator and every row before it is usable. */
  ghost predicate Terminated(lines: seq<DirLine>, t: int)
  {
    0 <= t < |lines| && lines[t].EndOfListing? && forall k :: 0 <= k < t ==> LineUsable(lines[k])
  }

  /** Before a terminator reached through usable rows, the walk holds
   *  exactly their entries. */
  lemma {:induction false} WalkAt(lines: seq<DirLine>, t: int)
    requires Terminated(lines, t)
    ensures Walk(lines).Some? && |Walk(lines).value| == t
    ensures forall k :: 0 <= k < t ==> Walk(lines).value[k] == Decode(lines[k])
    decreases t
  {
    if t > 0 {
      var rest := lines[1..];
      assert Terminated(rest, t - 1) by {
        forall k | 0 <= k < t - 1
          ensures LineUsable(rest[k])
        {
          assert rest[k] == lines[k + 1];
        }
      }
      WalkAt(rest, t - 1);
      forall k | 1 <= k < t
        ensures Walk(lines).value[k] == Decode(lines[k])
      {
        assert rest[k - 1] == lines[k];
      }
    }
  }

  /** A walk that gives a listing met a terminator after usable rows. */
  lemma {:induction false} WalkTerminated(lines: seq<DirLine>)
    requires Walk(lines).Some?
    ensures exists t :: Terminated(lines, t)
    decreases |lines|
  {
    if !lines[0].EndOfListing? {
      var rest := lines[1..];
      WalkTerminated(rest);
      var t :| Terminated(rest, t);
      forall k | 0 <= k < t + 1
        ensures LineUsable(lines[k])
      {
        if k > 0 {
          assert lines[k] == rest[k - 1];
        }
      }
      assert Terminated(lines, t + 1);
    } else {
      assert Terminated(lines, 0);
    }
  }

  /** The reply gives a listing exactly when a terminator comes after only
   *  usable rows, and then the listing holds exactly their entries. */
  lemma WalkComplete(lines: seq<DirLine>)
    ensures Walk(lines).Some? <==> exists t :: Terminated(lines, t)
    ensures Walk(lines).Some? ==>
      exists t :: Terminated(lines, t) && |Walk(lines).value| == t &&
        forall k :: 0 <= k < t ==> Walk(lines).value[k] == Decode(lines[k])
  {
    if exists t :: Terminated(lines, t) {
      var t :| Terminated(lines, t);
      WalkAt(lines, t);
    }
    if Walk(lines).Some? {
      WalkTerminated(lines);
    }
  }

  /** A returned listing is sorted and holds the entries of the usable rows. */
  lemma ServerListingSorted(lines: seq<DirLine>)
    ensures ServerListing(lines).Some? <==> Walk(lines).Some?
    ensures ServerListing(lines).Some? ==>
      Sorted(ServerListing(lines).value) && multiset(ServerListing(lines).value) == multiset(Walk(lines).value)
  {
    if Walk(lines).Some? {
      SortSorted(Walk(lines).value);
    }
  }

  /** A bad row anywhere before the terminator loses the listing. */
  lemma BadRowLosesListing(lines: seq<DirLine>, k: nat)
    requires k < |lines| && lines[k].Listed? && !RowValid(lines[k].row)
    requires forall i :: 0 <= i < k ==> !lines[i].EndOfListing?
    ensures ServerListing(lines) == None
  {
    WalkComplete(lines);
  }

  /** prefix + Walk of the rest, as the loop of get_server_dir builds it. */
  function Prepend(es: seq<Entry>, w: Option<seq<Entry>>): Option<seq<Entry>>
  {
    match w
    case None => None
    case Some(rest) => Some(es + rest)
  }

  lemma PrependNil(w: Option<seq<Entry>>)
    ensures Prepend([], w) == w
  {
    if w.Some? {
      assert [] + w.value == w.value;
    }
  }

  lemma PrependStep(es: seq<Entry>, lines: seq<DirLine>, i: nat)
    requires i < |lines| && LineUsable(lines[i])
    ensures Prepend(es, Walk(lines[i..])) == Prepend(es + [Decode(lines[i])], Walk(lines[i + 1..]))
  {
    assert lines[i..][1..] == lines[i + 1..];
    var w := Walk(lines[i + 1..]);
    if w.Some? {
      assert es + ([Decode(lines[i])] + w.value) == (es + [Decode(lines[i])]) + w.value;
    }
  }

  /** The reading loop of get_server_dir. */
  method GetServerDir(lines: seq<DirLine>) returns (r: Option<seq<Entry>>)
    ensures r == ServerListing(lines)
  {
    var entries: seq<Entry> := [];
    var ok := true;
    var i := 0;
    assert lines[i..] == lines;
    PrependNil(Walk(lines));
    while true
      invariant 0 <= i <= |lines|
      invariant ok ==> Walk(lines) == Prepend(entries, Walk(lines[i..]))
      invariant !ok ==> Walk(lines) == None
      decreases |lines| - i
    {
      if i == |lines| {
        ok := false;
        break;
      }
      var line := lines[i];
      assert lines[i..] == [line] + lines[i + 1..];
      if line.EndOfListing? {
        break;
      }
      if line.LostConnection? {
        ok := false;
        break;
      }
      if !RowValid(line.row) {
        ok := false;
        i := i + 1;
        continue;
      }
      if !ok {
        i := i + 1;
        continue;
      }
      if line.name.None? || (line.row.toLength > 0 && line.target.None?) {
        ok := false;
        break;
      }
      PrependStep(entries, lines, i);
      entries := entries + [Decode(line)];
      i := i + 1;
    }
    if ok {
      assert entries + [] == entries;
      r := Some(Sort(entries));
    } else {
      r := None;
    }
  }

  // ---------------------------------------------------------------------
  // The merge

  /** One step of the two-cursor merge: a server entry goes to cp (whether
   *  or not the name exists locally), or a local-only entry is deleted. */
  datatype Step = CopyStep(e: Entry) | DeleteStep(e: Entry)

  /** The steps of the merge of a server listing with a local one. */
  function Merge(server: seq<Entry>, local: seq<Entry>): (r: seq<Step>)
    ensures |r| <= |server| + |local|
    decreases |server| + |local|
  {
    if server == [] && local == [] then []
    else
      var c := if server != [] && local != [] then Compare(server[0].name, local[0].name)
               else if server != [] then -1 else 1;
      if c > 0 then [DeleteStep(local[0])] + Merge(server, local[1..])
      else if c < 0 then [CopyStep(server[0])] + Merge(server[1..], local)
      else [CopyStep(server[0])] + Merge(server[1..], local[1..])
  }

  function Copies(steps: seq<Step>): seq<Entry>
  {
    if steps == [] then []
    else (if steps[0].CopyStep? then [steps[0].e] else []) + Copies(steps[1..])
  }

  function Deletes(steps: seq<Step>): seq<Entry>
  {
    if steps == [] then []
    else (if steps[0].DeleteStep? then [steps[0].e] else []) + Deletes(steps[1..])
  }

  predicate HasName(s: seq<Entry>, n: string)
  {
    exists i :: 0 <= i < |s| && s[i].name == n
  }

  /** The local entries whose name the server does not list, in order. */
  function LocalOnly(server: seq<Entry>, local: seq<Entry>): seq<Entry>
  {
    if local == [] then []
    else (if HasName(server, local[0].name) then [] else [local[0]]) + LocalOnly(server, local[1..])
  }

  /** Every server entry is handed to cp exactly once, in listing order. */
  lemma {:induction false} MergeCopiesServer(server: seq<Entry>, local: seq<Entry>)
    ensures Copies(Merge(server, local)) == server
    decreases |server| + |local|
  {
    if server != [] || local != [] {
      var c := if server != [] && local != [] then Compare(server[0].name, local[0].name)
               else if server != [] then -1 else 1;
      if c > 0 {
        MergeCopiesServer(server, local[1..]);
      } else if c < 0 {
        MergeCopiesServer(server[1..], local);
        assert server == [server[0]] + server[1..];
      } else {
        MergeCopiesServer(server[1..], local[1..]);
        assert server == [server[0]] + server[1..];
      }
    }
  }

  /** Dropping a server entry whose name is not local changes nothing. */
  lemma {:induction false} LocalOnlyDropServer(server: seq<Entry>, local: seq<Entry>)
    requires server != []
    requires forall k :: 0 <= k < |local| ==> local[k].name != server[0].name
    ensures LocalOnly(server[1..], local) == LocalOnly(server, local)
    decreases |local|
  {
    if local != [] {
      assert HasName(server, local[0].name) <==> HasName(server[1..], local[0].name) by {
        if HasName(server, local[0].name) {
          var i :| 0 <= i < |server| && server[i].name == local[0].name;
          assert i > 0 && server[1..][i - 1] == server[i];
        }
        if HasName(server[1..], local[0].name) {
          var i :| 0 <= i < |server[1..]| && server[1..][i].name == local[0].name;
          assert server[i + 1] == server[1..][i];
        }
      }
      LocalOnlyDropServer(server, local[1..]);
    }
  }

  lemma StrictlySortedTail(s: seq<Entry>)
    requires StrictlySorted(s) && s != []
    ensures StrictlySorted(s[1..])
    ensures forall k :: 0 <= k < |s[1..]| ==> Compare(s[0].name, s[1..][k].name) < 0
  {
    forall i, j | 0 <= i < j < |s[1..]|
      ensures Compare(s[1..][i].name, s[1..][j].name) < 0
    {
      assert s[1..][i] == s[i + 1] && s[1..][j] == s[j + 1];
    }
  }

  /** Every name above the head of a strictly sorted listing is above b
   *  when the head is not below b. */
  lemma AboveHead(s: seq<Entry>, b: string)
    requires StrictlySorted(s) && s != [] && Compare(b, s[0].name) <= 0
    ensures forall k :: 1 <= k < |s| ==> s[k].name != b
    ensures Compare(b, s[0].name) < 0 ==> !HasName(s, b)
  {
    forall k | 1 <= k < |s|
      ensures s[k].name != b
    {
      CompareTransLe(b, s[0].name, s[k].name);
      if s[k].name == b {
        CompareFlip(s[0].name, s[k].name);
      }
    }
  }

  /**
   * On strictly sorted listings the merge deletes exactly the local entries
   * the server does not list, in order.
   */
  lemma {:induction false} MergeDeletesLocalOnly(server: seq<Entry>, local: seq<Entry>)
    requires StrictlySorted(server) && StrictlySorted(local)
    ensures Deletes(Merge(server, local)) == LocalOnly(server, local)
    decreases |server| + |local|
  {
    if server == [] && local != [] {
      StrictlySortedTail(local);
      MergeDeletesLocalOnly(server, local[1..]);
    } else if server != [] && local == [] {
      StrictlySortedTail(server);
      MergeDeletesLocalOnly(server[1..], local);
    } else if server != [] && local != [] {
      StrictlySortedTail(server);
      StrictlySortedTail(local);
      var c := Compare(server[0].name, local[0].name);
      CompareFlip(server[0].name, local[0].name);
      if c > 0 {
        AboveHead(server, local[0].name);
        assert !HasName(server, local[0].name) by {
          assert server[0].name != local[0].name;
        }
        MergeDeletesLocalOnly(server, local[1..]);
      } else if c < 0 {
        AboveHead(local, server[0].name);
        MergeDeletesLocalOnly(server[1..], local);
        LocalOnlyDropServer(server, local);
      } else {
        AboveHead(local, server[0].name);
        MergeDeletesLocalOnly(server[1..], local[1..]);
        LocalOnlyDropServer(server, local[1..]);
        assert HasName(server, local[0].name);
      }
    }
  }

  // ---------------------------------------------------------------------
  // Paths and actions

  /** The name of an entry relative to the copy root. */
  function RelativeName(path: string, name: string): string
  {
    if path == [] then name else path + "/" + name
  }

  /** The server-side name cp is given: from_prefix "/" path ["/"] name. */
  function CopySource(fp: string, path: string, name: string): (r: string)
    ensures r == fp + "/" + RelativeName(path, name)
  {
    fp + "/" + path + (if |path| > 0 then "/" else "") + name
  }

  /** The local name do_dirsync deletes, as written: to_prefix path "/" name. */
  function DeleteTargetAsWritten(tp: string, path: string, name: string): string
  {
    tp + path + "/" + name
  }

  /** Below the root the separator after to_prefix is missing. */
  lemma DeleteTargetAsWrittenMissesSeparator()
    ensures DeleteTargetAsWritten("/dst", "a", "x") == "/dsta/x"
    ensures DeleteTarget("/dst", "a", "x") == "/dst/a/x"
  {
  }

  /** The local name of the entry: to_prefix "/" path ["/"] name. */
  function DeleteTarget(tp: string, path: string, name: string): string
  {
    tp + "/" + path + (if |path| > 0 then "/" else "") + name
  }

  /** The deleted local name and the copied server name carry the same
   *  relative name under their prefixes; at the root the code as written
   *  agrees with it. */
  lemma DeleteTargetMatchesCopySource(fp: string, tp: string, path: string, name: string)
    ensures DeleteTarget(tp, path, name) == tp + "/" + RelativeName(path, name)
    ensures CopySource(fp, path, name)[|fp| + 1..] == DeleteTarget(tp, path, name)[|tp| + 1..]
    ensures path == [] ==> DeleteTargetAsWritten(tp, path, name) == DeleteTarget(tp, path, name)
  {
  }

  /** What a dirsync asks for: a cp of a server entry, or the removal of a
   *  local tree or file. */
  datatype Action = CopyFrom(change: Change) | RemoveTree(path: string) | Unlink(path: string)

  /** The event cp receives for a server entry. */
  function CopyChange(fp: string, path: string, e: Entry): (c: Change)
    ensures c.kind == Create && c.statValid && c.fileType == e.fileType
    ensures c.from == Some(fp + "/" + RelativeName(path, e.name)) && c.to == e.target && c.stat == e.stat
  {
    Change(Create, e.fileType, true, Some(CopySource(fp, path, e.name)), e.target, e.stat)
  }

  /** The actions of one merge step. */
  function StepActions(s: Step, fp: string, tp: string, path: string, delete: bool): seq<Action>
  {
    match s
    case CopyStep(e) => [CopyFrom(CopyChange(fp, path, e))]
    case DeleteStep(e) =>
      if !delete then []
      else if e.fileType == Dir then [RemoveTree(DeleteTarget(tp, path, e.name))]
      else [Unlink(DeleteTarget(tp, path, e.name))]
  }

  function Actions(steps: seq<Step>, fp: string, tp: string, path: string, delete: bool): seq<Action>
  {
    if steps == [] then []
    else StepActions(steps[0], fp, tp, path, delete) + Actions(steps[1..], fp, tp, path, delete)
  }

  /** The deletions counted: every local-only name, whether or not it is
   *  removed. */
  function CountDeletes(steps: seq<Step>): (n: nat)
    ensures n == |Deletes(steps)|
  {
    if steps == [] then 0 else (if steps[0].DeleteStep? then 1 else 0) + CountDeletes(steps[1..])
  }

  /** Without deletion enabled the actions are exactly the copies. */
  lemma {:induction false} NoDeleteOnlyCopies(steps: seq<Step>, fp: string, tp: string, path: string)
    ensures |Actions(steps, fp, tp, path, false)| == |Copies(steps)|
    ensures forall k :: 0 <= k < |Actions(steps, fp, tp, path, false)| ==> Actions(steps, fp, tp, path, false)[k].CopyFrom?
    decreases |steps|
  {
    if steps != [] {
      NoDeleteOnlyCopies(steps[1..], fp, tp, path);
    }
  }

  /** One round of the merge, on cursors into the two listings. */
  lemma MergeRound(server: seq<Entry>, local: seq<Entry>, sp: nat, lp: nat)
    requires sp <= |server| && lp <= |local| && (sp < |server| || lp < |local|)
    ensures var c := if sp < |server| && lp < |local| then Compare(server[sp].name, local[lp].name)
                     else if sp < |server| then -1 else 1;
      (c > 0 ==> lp < |local| && Merge(server[sp..], local[lp..]) == [DeleteStep(local[lp])] + Merge(server[sp..], local[lp + 1..])) &&
      (c < 0 ==> sp < |server| && Merge(server[sp..], local[lp..]) == [CopyStep(server[sp])] + Merge(server[sp + 1..], local[lp..])) &&
      (c == 0 ==> (sp < |server| && lp < |local| &&
        Merge(server[sp..], local[lp..]) == [CopyStep(server[sp])] + Merge(server[sp + 1..], local[lp + 1..])))
  {
    if sp < |server| {
      assert server[sp..][1..] == server[sp + 1..];
    }
    if lp < |local| {
      assert local[lp..][1..] == local[lp + 1..];
    }
  }

  /** One round of the merge loop of do_dirsync: the entry that sorts
   *  first is copied from the server, or, when only the local listing has
   *  it, removed (the whole tree for a directory) if deletion is enabled. */
  method MergeStep(server: seq<Entry>, local: seq<Entry>, sp: nat, lp: nat,
                   fp: string, tp: string, path: string, delete: bool)
    returns (step: Step, acts: seq<Action>, sp': nat, lp': nat)
    requires sp <= |server| && lp <= |local| && (sp < |server| || lp < |local|)
    ensures sp' <= |server| && lp' <= |local| && sp <= sp' && lp <= lp' && sp + lp < sp' + lp'
    ensures Merge(server[sp..], local[lp..]) == [step] + Merge(server[sp'..], local[lp'..])
    ensures acts == StepActions(step, fp, tp, path, delete)
  {
    MergeRound(server, local, sp, lp);
    var c;
    if sp < |server| && lp < |local| {
      c := Compare(server[sp].name, local[lp].name);
    } else if sp < |server| {
      c := -1;
    } else {
      c := 1;
    }
    sp', lp' := sp, lp;
    acts := [];
    if c > 0 {
      step := DeleteStep(local[lp]);
      if delete {
        var target := DeleteTarget(tp, path, local[lp].name);
        if local[lp].fileType == Dir {
          acts := [RemoveTree(target)];
        } else {
          acts := [Unlink(target)];
        }
      }
      lp' := lp + 1;
    } else {
      step := CopyStep(server[sp]);
      acts := [CopyFrom(CopyChange(fp, path, server[sp]))];
      if c == 0 {
        lp' := lp + 1;
      }
      sp' := sp + 1;
    }
  }

  /** The merge loop of do_dirsync. */
  method MergeListings(server: seq<Entry>, local: seq<Entry>, fp: string, tp: string, path: string, delete: bool)
    returns (actions: seq<Action>, deleted: int, rounds: int)
    ensures actions == Actions(Merge(server, local), fp, tp, path, delete)
    ensures deleted == CountDeletes(Merge(server, local))
    ensures rounds == |Merge(server, local)| && rounds <= |server| + |local|
  {
    var sp, lp := 0, 0;
    actions, deleted, rounds := [], 0, 0;
    ghost var done: seq<Step> := [];
    while sp < |server| || lp < |local|
      invariant 0 <= sp <= |server| && 0 <= lp <= |local|
      invariant done + Merge(server[sp..], local[lp..]) == Merge(server, local)
      invariant actions == Actions(done, fp, tp, path, delete)
      invariant deleted == CountDeletes(done) && rounds == |done|
      decreases |server| - sp + |local| - lp
    {
      var step, acts, sp', lp' := MergeStep(server, local, sp, lp, fp, tp, path, delete);
      StepsAssoc(done, step, Merge(server[sp'..], local[lp'..]));
      ActionsAppend(done, step, fp, tp, path, delete);
      CountDeletesAppend(done, step);
      actions := actions + acts;
      if step.DeleteStep? {
        deleted := deleted + 1;
      }
      sp, lp := sp', lp';
      done := done + [step];
      rounds := rounds + 1;
    }
    assert server[sp..] == [] && local[lp..] == [];
    assert done + [] == done;
  }

  lemma StepsAssoc(a: seq<Step>, s: Step, b: seq<Step>)
    ensures a + ([s] + b) == (a + [s]) + b
  {
  }

  lemma {:induction false} ActionsAppend(steps: seq<Step>, s: Step, fp: string, tp: string, path: string, delete: bool)
    ensures Actions(steps + [s], fp, tp, path, delete) ==
      Actions(steps, fp, tp, path, delete) + StepActions(s, fp, tp, path, delete)
    decreases |steps|
  {
    if steps == [] {
      assert [s][1..] == [];
    } else {
      assert (steps + [s])[1..] == steps[1..] + [s];
      ActionsAppend(steps[1..], s, fp, tp, path, delete);
    }
  }

  lemma {:induction false} CountDeletesAppend(steps: seq<Step>, s: Step)
    ensures CountDeletes(steps + [s]) == CountDeletes(steps) + (if s.DeleteStep? then 1 else 0)
    decreases |steps|
  {
    if steps == [] {
      assert [s][1..] == [];
    } else {
      assert (steps + [s])[1..] == steps[1..] + [s];
      CountDeletesAppend(steps[1..], s);
    }
  }

  // ---------------------------------------------------------------------
  // Scheduling the subdirectories

  /** The relative paths of the server's subdirectories, in listing order. */
  function SubdirPaths(server: seq<Entry>, path: string): seq<string>
  {
    if server == [] then []
    else
      SubdirPaths(server[..|server| - 1], path) +
      (if server[|server| - 1].fileType == Dir then [RelativeName(path, server[|server| - 1].name)] else [])
  }

  /** The queue and its deadline. */
  datatype QueueState = QueueState(jobs: seq<string>, deadline: int)

  /** The queue after copy_dirsync(NULL, p, dl) for each p in turn. */
  function ScheduleAll(st: QueueState, paths: seq<string>, dl: int): QueueState
  {
    if paths == [] then st
    else
      var s1 := ScheduleAll(st, paths[..|paths| - 1], dl);
      var p := Normalise(Some(paths[|paths| - 1]));
      QueueState(Scheduled(s1.jobs, p, false), NextDeadline(s1.jobs, p, s1.deadline, dl))
  }

  /** Some job of `r` covers `x`. */
  ghost predicate CoveredBy(r: seq<string>, x: string)
  {
    exists j :: j in r && Covers(j, x)
  }

  /** One copy_dirsync(NULL, p, dl) covers p and keeps every old job covered. */
  lemma ScheduleStepCovers(jobs: seq<string>, p: string, r: seq<string>)
    requires r == Scheduled(jobs, p, false)
    ensures CoveredBy(r, p)
    ensures forall q :: q in jobs ==> CoveredBy(r, q)
  {
    ScheduledCovers(jobs, p, false);
  }

  /** Every job queued before the subdirectories stays covered. */
  lemma {:induction false} ScheduleAllCoversOld(st: QueueState, paths: seq<string>, dl: int)
    ensures forall q :: q in st.jobs ==> CoveredBy(ScheduleAll(st, paths, dl).jobs, q)
    decreases |paths|
  {
    if paths == [] {
      forall q | q in st.jobs
        ensures CoveredBy(st.jobs, q)
      {
        assert q[..|q|] == q;
        assert Covers(q, q);
      }
    } else {
      var init := paths[..|paths| - 1];
      ScheduleAllCoversOld(st, init, dl);
      var s1 := ScheduleAll(st, init, dl);
      var r := ScheduleAll(st, paths, dl).jobs;
      ScheduleStepCovers(s1.jobs, Normalise(Some(paths[|paths| - 1])), r);
      forall q | q in st.jobs
        ensures CoveredBy(r, q)
      {
        CoverCarries(s1.jobs, r, q);
      }
    }
  }

  /** Every scheduled subdirectory is covered by a queued job. */
  lemma {:induction false} ScheduleAllCoversNew(st: QueueState, paths: seq<string>, dl: int)
    ensures forall k :: 0 <= k < |paths| ==> CoveredBy(ScheduleAll(st, paths, dl).jobs, Normalise(Some(paths[k])))
    decreases |paths|
  {
    if paths != [] {
      var init := paths[..|paths| - 1];
      ScheduleAllCoversNew(st, init, dl);
      var s1 := ScheduleAll(st, init, dl);
      var r := ScheduleAll(st, paths, dl).jobs;
      ScheduleStepCovers(s1.jobs, Normalise(Some(paths[|paths| - 1])), r);
      forall k | 0 <= k < |paths|
        ensures CoveredBy(r, Normalise(Some(paths[k])))
      {
        if k < |init| {
          assert paths[k] == init[k];
          assert CoveredBy(s1.jobs, Normalise(Some(init[k])));
          CoverCarries(s1.jobs, r, Normalise(Some(init[k])));
        } else {
          assert paths[k] == paths[|paths| - 1];
        }
      }
    }
  }

  /** A name covered by the old queue is covered by a queue that covers
   *  every old job. */
  lemma CoverCarries(jobs: seq<string>, r: seq<string>, x: string)
    requires forall q :: q in jobs ==> CoveredBy(r, q)
    requires CoveredBy(jobs, x)
    ensures CoveredBy(r, x)
  {
    var j :| j in jobs && Covers(j, x);
    assert CoveredBy(r, j);
    var j2 :| j2 in r && Covers(j2, j);
    CoversTransitive(j2, j, x);
  }

  lemma SubdirPathsStep(server: seq<Entry>, path: string, i: nat)
    requires i < |server|
    ensures SubdirPaths(server[..i + 1], path) ==
      SubdirPaths(server[..i], path) + (if server[i].fileType == Dir then [RelativeName(path, server[i].name)] else [])
  {
    assert server[..i + 1][..i] == server[..i];
  }

  lemma ScheduleAllSnoc(st: QueueState, paths: seq<string>, x: string, dl: int)
    ensures var s1 := ScheduleAll(st, paths, dl);
      var p := Normalise(Some(x));
      ScheduleAll(st, paths + [x], dl) == QueueState(Scheduled(s1.jobs, p, false), NextDeadline(s1.jobs, p, s1.deadline, dl))
  {
    assert (paths + [x])[..|paths|] == paths;
  }

  /** One round of the scheduling loop: a directory entry is queued. */
  method EnqueueEntry(q: DirsyncQueue, ghost st: QueueState, ghost paths: seq<string>, e: Entry, path: string, dl: int)
    returns (added: bool)
    requires q.Valid() && QueueState(q.jobs, q.deadline) == ScheduleAll(st, paths, dl)
    modifies q
    ensures q.Valid() && added == (e.fileType == Dir)
    ensures QueueState(q.jobs, q.deadline) ==
      ScheduleAll(st, paths + (if added then [RelativeName(path, e.name)] else []), dl)
  {
    added := e.fileType == Dir;
    if added {
      var sd := RelativeName(path, e.name);
      ScheduleAllSnoc(st, paths, sd, dl);
      q.Schedule(None, Some(sd), dl);
    } else {
      assert paths + [] == paths;
    }
  }

  /** The scheduling loop at the end of do_dirsync. */
  method EnqueueSubdirs(q: DirsyncQueue, server: seq<Entry>, path: string, dl: int) returns (subdirs: int)
    requires q.Valid()
    modifies q
    ensures q.Valid()
    ensures QueueState(q.jobs, q.deadline) == ScheduleAll(QueueState(old(q.jobs), old(q.deadline)), SubdirPaths(server, path), dl)
    ensures subdirs == |SubdirPaths(server, path)|
  {
    ghost var st := QueueState(q.jobs, q.deadline);
    var i := 0;
    subdirs := 0;
    while i < |server|
      invariant 0 <= i <= |server| && q.Valid()
      invariant QueueState(q.jobs, q.deadline) == ScheduleAll(st, SubdirPaths(server[..i], path), dl)
      invariant subdirs == |SubdirPaths(server[..i], path)|
    {
      SubdirPathsStep(server, path, i);
      var added := EnqueueEntry(q, st, SubdirPaths(server[..i], path), server[i], path, dl);
      if added {
        subdirs := subdirs + 1;
      }
      i := i + 1;
    }
    assert server[..i] == server;
  }

  // ---------------------------------------------------------------------
  // do_dirsync

  /** The outcome of one dirsync. */
  datatype Outcome = Outcome(job: Option<string>, actions: seq<Action>, deleted: int, subdirs: int)

  /**
   * do_dirsync: take the head job; list the directory on the server (the
   * GETDIR reply is `lines`) and locally (`local`, None when it cannot be
   * read); merge the sorted listings; then schedule every server
   * subdirectory, with the deadline made absolute from `now`.
   */
  method DoDirsync(q: DirsyncQueue, lines: seq<DirLine>, local: Option<seq<Entry>>,
                   fp: string, tp: string, delete: bool, deadline: int, now: int)
    returns (out: Outcome)
    requires q.Valid()
    modifies q
    ensures q.Valid()
    ensures old(q.jobs) == [] ==> out == Outcome(None, [], 0, 0) && q.jobs == []
    ensures old(q.jobs) != [] ==> out.job == Some(old(q.jobs)[0])
    ensures old(q.jobs) != [] && ServerListing(lines).None? ==>
      out.actions == [] && out.subdirs == 0 && q.jobs == old(q.jobs)[1..]
    ensures old(q.jobs) != [] && ServerListing(lines).Some? ==>
      var server := ServerListing(lines).value;
      var path := old(q.jobs)[0];
      out.subdirs == |SubdirPaths(server, path)| &&
      (local.None? ==> out.actions == [] && out.deleted == 0) &&
      (local.Some? ==>
        var steps := Merge(server, Sort(local.value));
        out.actions == Actions(steps, fp, tp, path, delete) && out.deleted == CountDeletes(steps))
    ensures old(q.jobs) != [] && ServerListing(lines).Some? ==>
      var dl := if deadline > 0 then deadline + now else deadline;
      var popped := QueueState(old(q.jobs)[1..], if |old(q.jobs)| == 1 then 0 else old(q.deadline));
      QueueState(q.jobs, q.deadline) == ScheduleAll(popped, SubdirPaths(ServerListing(lines).value, old(q.jobs)[0]), dl)
  {
    var job := q.Pop();
    if job.None? {
      return Outcome(None, [], 0, 0);
    }
    var path := job.value;
    var server := GetServerDir(lines);
    var actions: seq<Action> := [];
    var deleted := 0;
    var subdirs := 0;
    if server.Some? {
      if local.Some? {
        var sortedLocal := Sort(local.value);
        var rounds;
        actions, deleted, rounds := MergeListings(server.value, sortedLocal, fp, tp, path, delete);
      }
      var dl := if deadline > 0 then deadline + now else deadline;
      subdirs := EnqueueSubdirs(q, server.value, path, dl);
    }
    out := Outcome(job, actions, deleted, subdirs);
  }

  /**
   * With distinct names on each side, one dirsync asks cp for every server
   * entry and, when deletion is enabled, removes exactly the local names
   * the server does not list.
   */
  lemma DirsyncSteps(server: seq<Entry>, local: seq<Entry>)
    requires Sorted(server) && DistinctNames(server) && DistinctNames(local)
    ensures var steps := Merge(server, Sort(local));
      Copies(steps) == server && Deletes(steps) == LocalOnly(server, Sort(local)) &&
      multiset(LocalOnly(server, Sort(local))) <= multiset(local)
  {
    SortSorted(local);
    SortDistinct(local);
    SortedDistinctStrict(Sort(local));
    SortedDistinctStrict(server);
    MergeCopiesServer(server, Sort(local));
    MergeDeletesLocalOnly(server, Sort(local));
    LocalOnlySub(server, Sort(local));
  }

  lemma {:induction false} LocalOnlySub(server: seq<Entry>, local: seq<Entry>)
    ensures multiset(LocalOnly(server, local)) <= multiset(local)
    decreases |local|
  {
    if local != [] {
      LocalOnlySub(server, local[1..]);
      assert local == [local[0]] + local[1..];
    }
  }
}
