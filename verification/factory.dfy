/** The two `create_rdf_store` factories, in pyrdfstore/build.py and
    pyrdfstore/rdfstore.py, as decisions on an optional list of endpoint URIs.
    Both guard the list with `assert len(info) > 2` under the message "Max 2
    arguments are allowed", the opposite of what the message says. */
module Factory {
  import opened Outcome

  /** The store a factory builds: the in-memory one, or a remote one whose
      SPARQL client queries `readUri` and sends updates to `writeUri`. */
  datatype Built = Memory | Remote(readUri: string, writeUri: string)

  /** `URIRDFStore(read_uri=read, write_uri=write)` (pyrdfstore/store.py): the
      client's update endpoint is `write or read`, so an empty write URI falls
      back to the read URI. */
  function Connect(read: string, write: string): (r: Built)
    ensures r.Remote? && r.readUri == read
    ensures write != "" ==> r.writeUri == write
    ensures write == "" ==> r.writeUri == read
    ensures r.writeUri != "" || read == ""
  {
    Remote(read, if write != "" then write else read)
  }

  datatype FactoryError =
    /** The length assertion failed on a list of this many URIs (`AssertionError`). */
    | TooFewEndpoints(count: nat)
    /** `len(None)` (`TypeError`). */
    | NoLength
    /** `URIRDFStore(read_uri=..., write_uri=...)` without the required
        `qryBuilder` (`TypeError`). */
    | MissingQueryBuilder(readUri: string, writeUri: string)
    /** More URIs than the intended maximum of two. */
    | TooManyEndpoints(count: nat)
    /** `info[0]` on an empty list (`IndexError`). */
    | NoEndpoint

  /** `create_rdf_store` of pyrdfstore/build.py. The `None` test comes first, so
      `None` gives the memory store; any list of at most two URIs fails the
      assertion, so the branch for one URI is never reached; a longer list picks
      its first two URIs for reading and writing, ignores the rest, and then
      fails because the constructor call leaves out `qryBuilder`. */
  function CreateBuild(info: Option<seq<string>>): (r: Result<Built, FactoryError>)
    ensures info.None? ==> r == Ok(Memory)
    ensures info.Some? && |info.value| <= 2 ==> r == Err(TooFewEndpoints(|info.value|))
    ensures info.Some? && |info.value| > 2 ==> r == Err(MissingQueryBuilder(info.value[0], info.value[1]))
  {
    match info
    case None => Ok(Memory)
    case Some(uris) =>
      if !(|uris| > 2) then Err(TooFewEndpoints(|uris|))
      else Err(MissingQueryBuilder(uris[0], uris[1]))
  }

  /** `create_rdf_store` of pyrdfstore/rdfstore.py. `len` is taken before the
      `None` test, so `None` fails and the memory branch is dead; lists of at
      most two URIs fail the assertion, so the one-URI branch is dead too; a
      longer list connects to its first two URIs. */
  function CreateRdfStore(info: Option<seq<string>>): (r: Result<Built, FactoryError>)
    ensures info.None? ==> r == Err(NoLength)
    ensures info.Some? && |info.value| <= 2 ==> r == Err(TooFewEndpoints(|info.value|))
    ensures info.Some? && |info.value| > 2 ==> r == Ok(Connect(info.value[0], info.value[1]))
  {
    match info
    case None => Err(NoLength)
    case Some(uris) =>
      if !(|uris| > 2) then Err(TooFewEndpoints(|uris|))
      else Ok(Connect(uris[0], uris[1]))
  }

  /** The factory as the assertion message and the one-URI branch mean it: no
      list gives the memory store, one URI serves both reading and writing, two
      URIs are read and write endpoints, and more than two are refused. An
      empty list reaches `info[0]` and fails. */
  function CreateIntended(info: Option<seq<string>>): (r: Result<Built, FactoryError>)
    ensures info.None? <==> r == Ok(Memory)
    ensures info.Some? && 1 <= |info.value| <= 2 ==> r == Ok(Connect(info.value[0], info.value[|info.value| - 1]))
    ensures r.Err? <==> info.Some? && (|info.value| == 0 || |info.value| > 2)
  {
    match info
    case None => Ok(Memory)
    case Some(uris) =>
      if !(|uris| <= 2) then Err(TooManyEndpoints(|uris|))
      else if |uris| == 0 then Err(NoEndpoint)
      else if |uris| == 1 then Ok(Connect(uris[0], uris[0]))
      else Ok(Connect(uris[0], uris[1]))
  }

  /** With build.py, only `None` builds a store at all. */
  lemma {:induction false} BuildSucceedsOnlyOnNone(info: Option<seq<string>>)
    ensures CreateBuild(info).Ok? <==> info.None?
  {
  }

  /** With rdfstore.py, exactly the lists of three or more URIs build a store. */
  lemma {:induction false} RdfStoreSucceedsOnlyOnLongLists(info: Option<seq<string>>)
    ensures CreateRdfStore(info).Ok? <==> info.Some? && |info.value| >= 3
  {
  }

  /** Neither factory ever reaches its one-URI branch: a single URI fails the assertion. */
  lemma {:induction false} SingleUriRejected(u: string)
    ensures CreateBuild(Some([u])) == Err(TooFewEndpoints(1))
    ensures CreateRdfStore(Some([u])) == Err(TooFewEndpoints(1))
  {
  }

  /** URIs after the second never matter. */
  lemma {:induction false} ExtraUrisIgnored(uris: seq<string>, extra: seq<string>)
    requires |uris| == 2 && |extra| > 0
    ensures CreateRdfStore(Some(uris + extra)) == Ok(Connect(uris[0], uris[1]))
    ensures CreateBuild(Some(uris + extra)) == Err(MissingQueryBuilder(uris[0], uris[1]))
  {
  }

  /** The assertion of rdfstore.py is inverted: apart from the empty list, which
      every variant refuses, it builds a store exactly when the intended factory
      would not. */
  lemma {:induction false} RdfStoreInvertsIntended(info: Option<seq<string>>)
    requires info != Some([])
    ensures CreateRdfStore(info).Ok? <==> !CreateIntended(info).Ok?
  {
  }

  /** A read endpoint and a distinct write endpoint, the configuration the
      message allows, are refused by both factories as written. */
  lemma {:induction false} TwoUrisRejected(read: string, write: string)
    ensures CreateBuild(Some([read, write])) == Err(TooFewEndpoints(2))
    ensures CreateRdfStore(Some([read, write])) == Err(TooFewEndpoints(2))
    ensures CreateIntended(Some([read, write])) == Ok(Connect(read, write))
  {
  }

  /** An empty second URI does not give an empty update endpoint: the client
      writes to the read endpoint instead. */
  lemma {:induction false} EmptyWriteUriFallsBack(read: string, extra: string)
    ensures CreateRdfStore(Some([read, "", extra])) == Ok(Remote(read, read))
    ensures CreateIntended(Some([read, ""])) == Ok(Remote(read, read))
  {
  }
}
