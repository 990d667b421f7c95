/** The t-digest library, seen only through its contract.  A digest is
    represented by the samples it has accepted and by whether it has been
    compressed since the last accepted sample; which calls fail, and which
    bytes serialisation produces, are decided by a `Library` value. */
module TDigest {
  import opened Errors

  type Bytes = seq<bv8>

  /** The compression parameter the statistic passes to `tdigest.New`. */
  const COMPRESSION: nat := 20

  datatype Digest = Digest(samples: seq<real>, compressed: bool)

  /** The behaviour of the library where the model cannot see it: the code of
      the error (if any) of `New` for a compression parameter, of `Add` for a
      digest and a value, of `Compress` and of `AsBytes` for a digest, and the
      bytes `AsBytes` yields when it succeeds.  Every library error is a
      `Foreign` one. */
  datatype Library = Library(
    newErr: nat -> Option<nat>,
    addErr: (Digest, real) -> Option<nat>,
    compressErr: Digest -> Option<nat>,
    asBytesErr: Digest -> Option<nat>,
    encode: Digest -> Bytes)

  /** `tdigest.New(tdigest.Compression(20))`: an empty digest, or an error. */
  function New(lib: Library): (r: Result<Digest>)
    ensures r.Err? ==> r.error.Foreign?
  {
    match lib.newErr(COMPRESSION)
    case Some(c) => Err(Foreign(c))
    case None => Ok(Digest([], false))
  }

  /** `td.Add(v)`: a rejected value leaves the digest as it was. */
  function Add(lib: Library, d: Digest, v: real): (r: (Digest, Option<Error>))
    ensures r.1.Some? ==> r.1.value.Foreign?
  {
    match lib.addErr(d, v)
    case Some(c) => (d, Some(Foreign(c)))
    case None => (Digest(d.samples + [v], false), None)
  }

  /** `td.Compress()`, which works on the digest in place. */
  function Compress(lib: Library, d: Digest): (r: Result<Digest>)
    ensures r.Err? ==> r.error.Foreign?
  {
    match lib.compressErr(d)
    case Some(c) => Err(Foreign(c))
    case None => Ok(d.(compressed := true))
  }

  /** `td.AsBytes()`. */
  function AsBytes(lib: Library, d: Digest): (r: Result<Bytes>)
    ensures r.Err? ==> r.error.Foreign?
  {
    match lib.asBytesErr(d)
    case Some(c) => Err(Foreign(c))
    case None => Ok(lib.encode(d))
  }
}
