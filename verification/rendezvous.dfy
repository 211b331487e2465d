/** The file-based rendezvous. Each process advertises a local UDP port
    in a file named after its process id, inside a directory shared by
    all processes (`ntir11-rdv` under the temporary-files directory). A
    process meets its peer by consuming the first other advertisement it
    finds there, and withdraws its own when it is dropped.

    The file system is reduced to that one directory; the order in which
    `read_dir` lists it, and which entries cannot be read, are parameters. */
module Rendezvous {
  import opened Ints
  import opened Wrappers
  import Text

  /** A directory entry, as `exists()` (which follows links) and
      `remove_file` (which unlinks anything but a directory) see it: a
      regular file with its content; a directory; a symbolic link whose
      target is missing, for which `exists()` is false; or any other entry
      (a FIFO, a socket, a device, a link to an existing target). */
  datatype Entry = File(content: seq<byte>) | Directory | DanglingLink | Special

  /** What `cleanup` removes: an entry that `exists()` reports and that
      `remove_file` can unlink. */
  predicate Removable(e: Entry) {
    e.File? || e.Special?
  }

  type Dir = map<string, Entry>

  /** The rendezvous directory with its entries by name, or None when it
      does not exist. */
  datatype Fs = Fs(rdv: Option<Dir>)

  /** The entries of the directory, none when it does not exist. */
  function Entries(fs: Fs): Dir {
    if fs.rdv.Some? then fs.rdv.value else map[]
  }

  /** An advertiser; its advertisement is the entry `ownName`. */
  datatype RendezVous = RendezVous(ownName: string)

  /** The file name of a process's advertisement: its id in decimal. */
  function AdvertisementName(pid: u32): string {
    Text.Decimal(pid)
  }

  /** The content of an advertisement: the port in decimal. */
  function Advertisement(port: u16): seq<byte> {
    Text.Utf8(Text.Decimal(port))
  }

  /** `advertise`: creates the directory if it is absent (`mkdir` is the
      answer to that attempt), then writes the advertisement (`write` is
      the answer to the write). */
  function Advertise(r: RendezVous, fs: Fs, port: u16, mkdir: Outcome, write: Outcome): (res: (Result<()>, Fs))
    ensures res.0.Ok? <==> (fs.rdv.Some? || mkdir.Pass?) && write.Pass?
    ensures res.0.Ok? ==> res.1 == Fs(Some(Entries(fs)[r.ownName := File(Advertisement(port))]))
    ensures res.0.Err? ==> Entries(res.1) == Entries(fs)
    ensures res.1.rdv.Some? <==> fs.rdv.Some? || mkdir.Pass?
  {
    if fs.rdv.None? && mkdir.Fail? then (Err(mkdir.error), fs)
    else
      var dir := Entries(fs);
      match write
      case Fail(e) => (Err(e), Fs(Some(dir)))
      case Pass => (Ok(()), Fs(Some(dir[r.ownName := File(Advertisement(port))])))
  }

  /** `RendezVous::new`: advertises `port` under the process id. On
      failure the half-built advertiser is dropped on the way out, which
      withdraws whatever entry under its name `cleanup` can remove. */
  function New(fs: Fs, pid: u32, port: u16, mkdir: Outcome, write: Outcome): (res: (Result<RendezVous>, Fs))
    ensures res.0.Ok? <==> (fs.rdv.Some? || mkdir.Pass?) && write.Pass?
    ensures res.0.Ok? ==> res.0.value.ownName == AdvertisementName(pid)
    ensures res.0.Ok? ==> res.1 == Fs(Some(Entries(fs)[AdvertisementName(pid) := File(Advertisement(port))]))
    ensures res.0.Err? ==> Entries(res.1) - {AdvertisementName(pid)} == Entries(fs) - {AdvertisementName(pid)}
    ensures res.0.Err? && AdvertisementName(pid) in Entries(res.1) ==>
              && AdvertisementName(pid) in Entries(fs)
              && Entries(res.1)[AdvertisementName(pid)] == Entries(fs)[AdvertisementName(pid)]
              && (Entries(fs)[AdvertisementName(pid)].Directory? || Entries(fs)[AdvertisementName(pid)].DanglingLink?)
  {
    var r := RendezVous(AdvertisementName(pid));
    var (advertised, fs') := Advertise(r, fs, port, mkdir, write);
    match advertised
    case Ok(_) => (Ok(r), fs')
    case Err(e) => (Err(e), Drop(r, fs'))
  }

  /** The entry can be consumed: it is present, a regular file, not the
      caller's own advertisement, and readable. */
  predicate Candidate(dir: Dir, own: string, unreadable: set<string>, name: string) {
    name in dir && dir[name].File? && name != own && name !in unreadable
  }

  /** The scan of `look_for_peer_advertisement` over the listed names. */
  function Scan(dir: Dir, own: string, names: seq<string>, unreadable: set<string>): (r: (Option<u16>, Dir))
    ensures (forall i | 0 <= i < |names| :: !Candidate(dir, own, unreadable, names[i])) ==> r == (None, dir)
    ensures forall i | 0 <= i < |names| && Candidate(dir, own, unreadable, names[i])
                       && (forall j | 0 <= j < i :: !Candidate(dir, own, unreadable, names[j]))
              :: r == (Text.ParseU16(dir[names[i]].content), dir - {names[i]})
    decreases |names|
  {
    if names == [] then (None, dir)
    else if Candidate(dir, own, unreadable, names[0]) then
      (Text.ParseU16(dir[names[0]].content), dir - {names[0]})
    else
      Scan(dir, own, names[1..], unreadable)
  }

  /** `look_for_peer_advertisement`: `listing` is what `read_dir` yields,
      None when it fails; `unreadable` are the names whose entry, type or
      content cannot be read. */
  function LookForPeer(r: RendezVous, fs: Fs, listing: Option<seq<string>>, unreadable: set<string>): (res: (Option<u16>, Fs))
    ensures fs.rdv.None? || listing.None? ==> res == (None, fs)
    ensures fs.rdv.Some? && listing.Some? ==>
              (forall i | 0 <= i < |listing.value| :: !Candidate(fs.rdv.value, r.ownName, unreadable, listing.value[i])) ==>
                res == (None, fs)
    ensures fs.rdv.Some? && listing.Some? ==>
              forall i | 0 <= i < |listing.value| && Candidate(fs.rdv.value, r.ownName, unreadable, listing.value[i])
                         && (forall j | 0 <= j < i :: !Candidate(fs.rdv.value, r.ownName, unreadable, listing.value[j]))
                :: res == (Text.ParseU16(fs.rdv.value[listing.value[i]].content), Fs(Some(fs.rdv.value - {listing.value[i]})))
  {
    if fs.rdv.None? || listing.None? then (None, fs)
    else
      var (port, dir) := Scan(fs.rdv.value, r.ownName, listing.value, unreadable);
      (port, Fs(Some(dir)))
  }

  /** `try_to_meet`: consumes the first listed advertisement of another
      process, returning its port when its content parses. */
  function TryToMeet(r: RendezVous, fs: Fs, listing: Option<seq<string>>, unreadable: set<string>): (res: (Option<u16>, Fs))
    ensures fs.rdv.None? || listing.None? ==> res == (None, fs)
    ensures fs.rdv.Some? && listing.Some? ==>
              (forall i | 0 <= i < |listing.value| :: !Candidate(fs.rdv.value, r.ownName, unreadable, listing.value[i])) ==>
                res == (None, fs)
    ensures fs.rdv.Some? && listing.Some? ==>
              forall i | 0 <= i < |listing.value| && Candidate(fs.rdv.value, r.ownName, unreadable, listing.value[i])
                         && (forall j | 0 <= j < i :: !Candidate(fs.rdv.value, r.ownName, unreadable, listing.value[j]))
                :: res == (Text.ParseU16(fs.rdv.value[listing.value[i]].content), Fs(Some(fs.rdv.value - {listing.value[i]})))
  {
    LookForPeer(r, fs, listing, unreadable)
  }

  /** The scan either changes nothing and finds no port, or consumes
      exactly one candidate and returns the parse of its content. */
  lemma {:induction false} ScanConsumesAtMostOne(dir: Dir, own: string, names: seq<string>, unreadable: set<string>)
    ensures var (port, after) := Scan(dir, own, names, unreadable);
      || (port.None? && after == dir)
      || exists k :: Candidate(dir, own, unreadable, k) && after == dir - {k} && port == Text.ParseU16(dir[k].content)
    decreases |names|
  {
    if names != [] && !Candidate(dir, own, unreadable, names[0]) {
      ScanConsumesAtMostOne(dir, own, names[1..], unreadable);
    }
  }

  /** `try_to_meet` removes at most one entry, a readable regular file of
      another process, and leaves every other entry, the caller's own
      advertisement included, as it was; a port is returned only from the
      content of the file it removed. */
  lemma TryToMeetConsumesAtMostOne(r: RendezVous, fs: Fs, listing: Option<seq<string>>, unreadable: set<string>)
    ensures var (port, fs') := TryToMeet(r, fs, listing, unreadable);
      && fs'.rdv.Some? == fs.rdv.Some?
      && (r.ownName in Entries(fs') <==> r.ownName in Entries(fs))
      && (r.ownName in Entries(fs) ==> Entries(fs')[r.ownName] == Entries(fs)[r.ownName])
      && (|| (port.None? && fs' == fs)
          || exists k :: Candidate(Entries(fs), r.ownName, unreadable, k)
                         && Entries(fs') == Entries(fs) - {k}
                         && port == Text.ParseU16(Entries(fs)[k].content))
  {
    if fs.rdv.Some? && listing.Some? {
      ScanConsumesAtMostOne(fs.rdv.value, r.ownName, listing.value, unreadable);
    }
  }

  /** `cleanup`: removes the caller's own entry when `exists()` sees it and
      `remove_file` can unlink it. A directory makes `remove_file` fail and
      a dangling link makes `exists()` false; either stays. */
  function Cleanup(r: RendezVous, fs: Fs): (fs': Fs)
    ensures fs'.rdv.Some? <==> fs.rdv.Some?
    ensures Entries(fs') - {r.ownName} == Entries(fs) - {r.ownName}
    ensures r.ownName in Entries(fs') <==>
              r.ownName in Entries(fs) && (Entries(fs)[r.ownName].Directory? || Entries(fs)[r.ownName].DanglingLink?)
    ensures r.ownName in Entries(fs') ==> Entries(fs')[r.ownName] == Entries(fs)[r.ownName]
  {
    if fs.rdv.Some? && r.ownName in fs.rdv.value && Removable(fs.rdv.value[r.ownName]) then
      Fs(Some(fs.rdv.value - {r.ownName}))
    else
      fs
  }

  /** Dropping an advertiser always runs its cleanup: its own entry goes
      unless it is a directory or a dangling link, and nothing else changes. */
  function Drop(r: RendezVous, fs: Fs): (fs': Fs)
    ensures fs' == Cleanup(r, fs)
    ensures Entries(fs') - {r.ownName} == Entries(fs) - {r.ownName}
    ensures r.ownName in Entries(fs') ==> Entries(fs')[r.ownName].Directory? || Entries(fs')[r.ownName].DanglingLink?
  {
    Cleanup(r, fs)
  }

  lemma CleanupIdempotent(r: RendezVous, fs: Fs)
    ensures Cleanup(r, Cleanup(r, fs)) == Cleanup(r, fs)
  {
  }

  /** Advertising and then dropping restores the directory's entries, when
      the caller had no entry there before. */
  lemma NewThenDrop(fs: Fs, pid: u32, port: u16, mkdir: Outcome, write: Outcome)
    requires AdvertisementName(pid) !in Entries(fs)
    ensures var (r, fs') := New(fs, pid, port, mkdir, write);
      Entries(if r.Ok? then Drop(r.value, fs') else fs') == Entries(fs)
  {
    var name := AdvertisementName(pid);
    var (r, fs') := New(fs, pid, port, mkdir, write);
    var after := Entries(if r.Ok? then Drop(r.value, fs') else fs');
    assert after - {name} == Entries(fs) - {name};
    assert name !in after;
    assert Entries(fs) - {name} == Entries(fs);
    assert after - {name} == after;
  }

  /** When `k` is the only candidate and is listed, the scan consumes it. */
  lemma {:induction false} ScanOnlyCandidate(dir: Dir, own: string, names: seq<string>, unreadable: set<string>, k: string)
    requires k in names && Candidate(dir, own, unreadable, k)
    requires forall n | Candidate(dir, own, unreadable, n) :: n == k
    ensures Scan(dir, own, names, unreadable) == (Text.ParseU16(dir[k].content), dir - {k})
    decreases |names|
  {
    if names[0] != k {
      assert k in names[1..];
      ScanOnlyCandidate(dir, own, names[1..], unreadable, k);
    }
  }

  /** Two processes A and B advertise in a directory with no other entry.
      A's first `try_to_meet` (with B's advertisement listed and readable)
      returns B's port and consumes only B's file; a second call finds no
      peer and changes nothing. */
  lemma TwoPeersMeet(fs: Fs, pidA: u32, pidB: u32, portA: u16, portB: u16,
                     listing: seq<string>, unreadable: set<string>,
                     listing2: Option<seq<string>>, unreadable2: set<string>)
    requires pidA != pidB
    requires Entries(fs) == map[]
    requires AdvertisementName(pidB) in listing && AdvertisementName(pidB) !in unreadable
    ensures var (a, fs1) := New(fs, pidA, portA, Pass, Pass);
            var (b, fs2) := New(fs1, pidB, portB, Pass, Pass);
            var (met, fs3) := TryToMeet(a.value, fs2, Some(listing), unreadable);
      && a == Ok(RendezVous(AdvertisementName(pidA)))
      && b == Ok(RendezVous(AdvertisementName(pidB)))
      && met == Some(portB)
      && fs3 == Fs(Some(map[AdvertisementName(pidA) := File(Advertisement(portA))]))
      && TryToMeet(a.value, fs3, listing2, unreadable2) == (None, fs3)
  {
    var nameA, nameB := AdvertisementName(pidA), AdvertisementName(pidB);
    Text.DecimalInjective(pidA, pidB);
    assert nameA != nameB;
    var (a, fs1) := New(fs, pidA, portA, Pass, Pass);
    var (b, fs2) := New(fs1, pidB, portB, Pass, Pass);
    var dir := map[nameA := File(Advertisement(portA)), nameB := File(Advertisement(portB))];
    assert fs2.rdv == Some(dir);
    forall n | Candidate(dir, nameA, unreadable, n) ensures n == nameB {
    }
    ScanOnlyCandidate(dir, nameA, listing, unreadable, nameB);
    Text.DecimalRoundTrip(portB);
    var (met, fs3) := TryToMeet(a.value, fs2, Some(listing), unreadable);
    var rest := map[nameA := File(Advertisement(portA))];
    assert dir - {nameB} == rest;
    assert fs3 == Fs(Some(rest));
    if listing2.Some? {
      forall i | 0 <= i < |listing2.value| ensures !Candidate(rest, nameA, unreadable2, listing2.value[i]) {
      }
    }
  }
}
