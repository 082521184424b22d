/**
  The signed container around the compressed archive: magic number, certificate, NUL, signature,
  payload. The packer writes it; the agent takes it apart again, verifies the signature and copies
  the payload out. Hashing, signing and verifying are parameters.
*/
module WpkContainer {
  import opened Common
  import opened WpkArchive

  /** "WPK256" and its NUL. */
  const MAGIC: bytes := [87, 80, 75, 50, 53, 54, 0]
  const SIGNLEN: nat := 256
  const BUFLEN: nat := 4096

  datatype Parts = Parts(cert: bytes, signature: bytes, payload: bytes)

  function Container(p: Parts): bytes {
    MAGIC + p.cert + [NUL] + p.signature + p.payload
  }

  /** What the agent takes the file to hold; None when it gives up on the layout. */
  function Take(file: bytes): Option<Parts> {
    if |file| < |MAGIC| || file[..|MAGIC|] != MAGIC then None
    else
      var rest := file[|MAGIC|..];
      var cert := Before(rest, NUL);
      if |cert| == |rest| then None
      else
        var after := rest[|cert| + 1..];
        if |after| < SIGNLEN then None else Some(Parts(cert, after[..SIGNLEN], after[SIGNLEN..]))
  }

  lemma CertificateEnds(cert: bytes, tail: bytes)
    requires NUL !in cert
    ensures Before(cert + [NUL] + tail, NUL) == cert
  {
    var s := cert + [NUL] + tail;
    assert s[..|cert|] == cert;
    BeforeIs(s, NUL, |cert|);
  }

  /** The agent finds the packer's parts again exactly when the certificate holds no NUL byte and
      the signature is as long as that of a 2048-bit key. */
  lemma ContainerRoundTrip(p: Parts)
    ensures Take(Container(p)) == Some(p) <==> NUL !in p.cert && |p.signature| == SIGNLEN
  {
    if NUL !in p.cert && |p.signature| == SIGNLEN {
      var file, tail := Container(p), p.signature + p.payload;
      var rest := p.cert + [NUL] + tail;
      assert file == MAGIC + rest;
      assert file[..|MAGIC|] == MAGIC && file[|MAGIC|..] == rest;
      CertificateEnds(p.cert, tail);
      assert rest[|p.cert| + 1..] == tail;
      assert tail[..SIGNLEN] == p.signature && tail[SIGNLEN..] == p.payload;
    }
  }

  /** Whatever file the agent takes apart is the container of the parts it takes it to hold, with the
      magic number in front and the certificate ending at the first NUL. */
  lemma TakenIsContainer(file: bytes)
    ensures match Take(file)
            case None => forall p: Parts :: NUL !in p.cert && |p.signature| == SIGNLEN ==> file != Container(p)
            case Some(p) => file == Container(p) && NUL !in p.cert && |p.signature| == SIGNLEN
  {
    match Take(file)
    case None =>
      forall p: Parts | NUL !in p.cert && |p.signature| == SIGNLEN ensures file != Container(p) {
        ContainerRoundTrip(p);
      }
    case Some(p) =>
      var rest := file[|MAGIC|..];
      var after := rest[|p.cert| + 1..];
      assert file == MAGIC + rest;
      assert rest == p.cert + [NUL] + after;
      assert after == p.signature + p.payload;
      assert MAGIC + (p.cert + [NUL] + (p.signature + p.payload)) == Container(p);
  }

  // ---------------------------------------------------------------- the packer

  /** The packer's read loop gives the hasher every byte of the file, in order, whatever its length,
      and the output is the container of what it read. */
  method Sign(source: bytes, cert: bytes, sign: bytes -> bytes) returns (target: bytes, hashed: bytes)
    ensures hashed == source
    ensures target == Container(Parts(cert, sign(source), source))
  {
    hashed := [];
    var pos := 0;
    var buf := source[..Least(BUFLEN, |source|)];
    pos := |buf|;
    while buf != []
      invariant |buf| <= pos <= |source| && buf == source[pos - |buf|..pos]
      invariant hashed == source[..pos - |buf|]
      invariant buf == [] ==> pos == |source|
      decreases |source| - pos, |buf|
    {
      hashed := hashed + buf;
      var n := Least(BUFLEN, |source| - pos);
      buf := source[pos..pos + n];
      pos := pos + n;
    }
    assert source[..pos] == source;
    target := MAGIC + cert;
    target := target + ([NUL] + sign(hashed));
    target := target + source;
    assert target == Container(Parts(cert, sign(source), source));
  }

  // ---------------------------------------------------------------- the agent

  /** Reads byte by byte into a buffer that doubles when it is full; None at the end of the file. */
  method ReadCertificate(stream: bytes) returns (cert: Option<bytes>, rest: bytes)
    ensures var c := Before(stream, NUL);
            if |c| == |stream| then cert == None else cert == Some(c) && rest == stream[|c| + 1..]
  {
    var size, i := 1024, 0;
    while true
      invariant 0 <= i <= |stream| && i < size
      invariant NUL !in stream[..i]
      decreases |stream| - i
    {
      if i == |stream| {
        BeforeIs(stream, NUL, i);
        return None, [];
      }
      if stream[i] == NUL {
        BeforeIs(stream, NUL, i);
        return Some(stream[..i]), stream[i + 1..];
      }
      i := i + 1;
      if i == size {
        size := 2 * size;
      }
    }
  }

  /** The agent hands out the payload when the layout holds and the signature is that of exactly
      the payload bytes; nothing otherwise. */
  method Unsign(file: bytes, verify: (bytes, bytes, bytes) -> bool) returns (target: Option<bytes>)
    ensures match Take(file)
            case None => target == None
            case Some(p) => target == if verify(p.cert, p.signature, p.payload) then Some(p.payload) else None
  {
    if |file| < |MAGIC| || file[..|MAGIC|] != MAGIC {
      return None;
    }
    var cert, rest := ReadCertificate(file[|MAGIC|..]);
    if cert == None || |rest| < SIGNLEN {
      return None;
    }
    var signature, offset := rest[..SIGNLEN], SIGNLEN;
    var hashed := ReadToEnd(rest[offset..]);
    if !verify(cert.value, signature, hashed) {
      return None;
    }
    var copied := ReadToEnd(rest[offset..]);
    return Some(copied);
  }

  method ReadToEnd(stream: bytes) returns (all: bytes)
    ensures all == stream
  {
    all := [];
    var pos := 0;
    while pos < |stream|
      invariant 0 <= pos <= |stream| && all == stream[..pos]
    {
      var n := Least(BUFLEN, |stream| - pos);
      all := all + stream[pos..pos + n];
      pos := pos + n;
    }
    assert stream[..pos] == stream;
  }

  // ---------------------------------------------------------------- the whole package

  /** Unsign, uncompress, unmerge: what an agent does with a package; None if a stage gives up. */
  ghost function Upgrade(file: bytes, verify: (bytes, bytes, bytes) -> bool, unzip: bytes -> Option<bytes>,
                         dir: bytes): Option<Unmerged> {
    match Take(file)
    case None => None
    case Some(p) =>
      if !verify(p.cert, p.signature, p.payload) then None
      else
        match unzip(p.payload)
        case None => None
        case Some(merged) => Some(Unmerge(dir, merged))
  }

  /** Whatever the file: nothing is unpacked unless it is a container whose signature verifies for exactly
      the payload that is unpacked, and then all files stay below dir. */
  lemma UpgradeOnlyVerified(file: bytes, verify: (bytes, bytes, bytes) -> bool, unzip: bytes -> Option<bytes>,
                            dir: bytes)
    ensures Upgrade(file, verify, unzip, dir) != None <==>
            exists p: Parts :: Container(p) == file && NUL !in p.cert && |p.signature| == 256
                               && verify(p.cert, p.signature, p.payload) && unzip(p.payload) != None
    ensures Upgrade(file, verify, unzip, dir).Some? ==> Confined(dir, Upgrade(file, verify, unzip, dir).value)
  {
    TakenIsContainer(file);
    if p: Parts :| Container(p) == file && NUL !in p.cert && |p.signature| == 256
                   && verify(p.cert, p.signature, p.payload) && unzip(p.payload) != None {
      ContainerRoundTrip(p);
    }
    if Take(file).Some? && unzip(Take(file).value.payload).Some? {
      UnmergeConfined(dir, unzip(Take(file).value.payload).value);
    }
  }

  /** From the packer's sources to the agent's disk, for any compression that can be undone and any
      signature that verifies: every file found below the sources arrives below dir with its
      content, in order and without an error, if and only if every record is restorable. */
  lemma PackageRoundTrip(sources: seq<Entry>, tag: bytes, cert: bytes, sign: bytes -> bytes, zip: bytes -> bytes,
                         verify: (bytes, bytes, bytes) -> bool, unzip: bytes -> Option<bytes>, dir: bytes)
    requires forall i | 0 <= i < |WalkSources(sources).found| :: NUL !in WalkSources(sources).found[i].path
    requires Harmless(TagLine(tag)) && NUL !in cert
    requires var merged := TagLine(tag) + Encode(WalkSources(sources).found);
             && unzip(zip(merged)) == Some(merged)
             && |sign(zip(merged))| == SIGNLEN
             && verify(cert, sign(zip(merged)), zip(merged))
    ensures var records := WalkSources(sources).found;
            var payload := zip(TagLine(tag) + Encode(records));
            Upgrade(Container(Parts(cert, sign(payload), payload)), verify, unzip, dir)
            == Some(Unmerged(Restored(dir, records), true))
            <==> forall i | 0 <= i < |records| :: Restorable(dir, records[i])
    ensures exists places :: FindsAll(sources, WalkSources(sources).found, places)
  {
    var places := SourcesFind(sources);
    var records := WalkSources(sources).found;
    var merged := TagLine(tag) + Encode(records);
    var payload := zip(merged);
    ContainerRoundTrip(Parts(cert, sign(payload), payload));
    HarmlessSkipped(dir, TagLine(tag), Encode(records));
    RoundTrip(dir, records);
  }
}
