# py-RDF-store core, modelled in Dafny

This project models the core of `pyrdfstore`. That package is a thin client in
front of an RDF triple store. It can be backed by a remote SPARQL endpoint
(`URIRDFStore`) or by an in-memory graph (`MemoryRDFStore`). It keeps an admin
registry that maps each named graph to the time of its last change, and it
answers "is this named graph at most N minutes old?" (`verify_max_age`).
Beside it sits the standalone `clean_uri_graph.py`, which percent-escapes the
IRIs of a graph that a URL validator rejects.

The modules follow the source:

- `Outcome`: `Option` and `Result`. Python exceptions (`KeyError`,
  `AssertionError`, `TypeError`, `ValueError`, `IndexError`) become `Err` values.
- `Rdf`: terms (IRI, blank node, literal), triples, and graphs as sets of triples.
- `Batches`: `URIRDFStore._graph_to_batches` and its inner `regroup`. It covers
  `str.split("\n")`, `str.strip()`, `"\n".join`, and the `reduce` that packs the
  deduplicated N-Triples lines into request bodies of bounded length.
- `Utf8`: the UTF-8 encoding and decoding of section 3 of RFC 3629, which
  `urllib.parse.quote` applies before escaping.
- `Quoting`: `clean_uri`, i.e. `quote(uri, safe=...)` with its safe set, and a
  strict inverse of `quote` (Python's `unquote` replaces malformed UTF-8 instead
  of failing; the two agree on every output of `quote`, which is ASCII).
- `Cleaning`: `clean_node` and `clean_graph`.
- `MemoryStore`: `MemoryRDFStore` (aggregate graph, named partitions, admin
  registry) with the inherited `RDFStore.verify_max_age`.
- `LastmodBindings`: `URIRDFStore._convert_result_to_datetime`, which turns the
  rows of the registry query into a map from named graph to time.
- `Factory`: the two `create_rdf_store` functions, in `pyrdfstore/build.py`
  and `pyrdfstore/rdfstore.py`.

Modelling choices:

- The clock is an integer count of microseconds. It is passed to every
  operation that reads the time.
- The URL validator (`validators.url`) is an uninterpreted parameter
  `valid: string -> bool`.
- The time parser (`datetime.strptime`) is an uninterpreted parameter
  `parse: string -> Option<T>`.
- `list(set(lines))` has no specified order. The enumeration order is a
  parameter, and every property holds for every order.

## Model

| member | source | states |
|---|---|---|
| Batches.StripSpec | pyrdfstore/store.py:163 | `strip()` removes exactly a whitespace prefix and a whitespace suffix: the result is a slice of the input flanked by whitespace only, it neither starts nor ends with whitespace, and it is empty exactly when the line is blank |
| Batches.SplitLines | pyrdfstore/store.py:157-159 | `split("\n")` yields at least one piece, no piece holds a newline, and joining the pieces with newlines gives the input back |
| Batches.SplitJoin | pyrdfstore/store.py:157-159 | splitting undoes `"\n".join` for any non-empty list of newline-free lines |
| Batches.ItemsMembership | pyrdfstore/store.py:162-165 | the lines `regroup` keeps are exactly the non-empty results of stripping some input line |
| Batches.Regroup | pyrdfstore/store.py:162-174 | one fold step: a too-long stripped line is the assertion error and only that; a blank line leaves the groups unchanged; otherwise the groups stay non-empty |
| Batches.Pack | pyrdfstore/store.py:162-176 | the fold fails iff some stripped line has length >= `max_str_size`; otherwise the batches joined with newlines are the kept lines joined with newlines (nothing lost, added or reordered); blank input gives `[""]`; otherwise no batch is empty and there are no more batches than lines; each batch has at most `max_str_size + 1` characters; a new batch is opened only when the next line did not fit the previous one |
| Batches.PackExceedsLimit | pyrdfstore/store.py:149-154 | two stripped lines whose lengths add up to `max_str_size` share one batch of `max_str_size + 1` characters, breaking the documented bound |
| Batches.PackStrict | pyrdfstore/store.py:149-154 | with the separator counted in the fit test, the fold has the same failure condition, contents and shape, and every batch is strictly shorter than `max_str_size`, as the doc-comment promises; a new batch is opened only when the next line plus its separator did not fit |
| Batches.GraphToBatches | pyrdfstore/store.py:145-176 | for every enumeration of the distinct serialised lines: it fails iff some line is too long; every non-blank line of the serialisation reaches the batches stripped, and nothing else does; joined, the batches are the kept lines in order; a blank graph gives `[""]`; otherwise no batch is empty, there are no more batches than kept lines, and each has at most `max_str_size + 1` characters; a new batch is opened only when the next line did not fit |
| Batches.InsertBatches | pyrdfstore/store.py:145-147 | at the default `max_str_size` of 4096, which `URIRDFStore.insert` uses (line 90): a graph is refused iff some stripped line has 4096 or more characters; otherwise no request body exceeds 4097 characters and the bodies joined are the kept lines |
| Utf8.EncodeChar | clean_uri_graph.py:11-12 | a character encodes to 1 to 4 bytes; it takes one byte exactly when it is ASCII, and that byte is the code point; every byte of a multi-byte form is non-ASCII |
| Utf8.EncodeAppend | clean_uri_graph.py:11-12 | encoding a concatenation is concatenating the encodings |
| Utf8.DecodeEncode | clean_uri_graph.py:11-12 | strict UTF-8 decoding undoes the encoding of every string |
| Quoting.InSafeExtraIsMembership | clean_uri_graph.py:12 | the spelled-out safe test is membership in the `safe` argument ``~@#$&()*!+=:;,?/'`` |
| Quoting.Quote | clean_uri_graph.py:11-12 | the result of `clean_uri` is well quoted: every `%` starts an escape of two upper-case hex digits, and every other character is safe; so it holds only safe characters, `%` and upper-case hex digits (through `WellQuotedChars`) |
| Quoting.QuoteAppend | clean_uri_graph.py:11-12 | `clean_uri` of a concatenation is the concatenation of the `clean_uri` results |
| Quoting.QuoteSafe | clean_uri_graph.py:11-12 | a string made only of safe characters is returned unchanged |
| Quoting.QuoteGrows | clean_uri_graph.py:11-12 | quoting never shortens; a string with an unsafe character gets strictly longer and contains a `%` |
| Quoting.QuoteFixpoint | clean_uri_graph.py:11-12 | `clean_uri` leaves a string unchanged iff all its characters are safe |
| Quoting.QuoteNotIdempotent | clean_uri_graph.py:11-12 | once a string needed an escape, quoting the result changes it again (the `%` is escaped) |
| Quoting.UnquoteQuote | clean_uri_graph.py:11-12 | `unquote(clean_uri(s)) == s` for every string: cleaning loses no information |
| Quoting.QuoteBrackets | clean_uri_graph.py:11-12 | square brackets between safe runs are escaped as `%5B` and `%5D` and everything else is kept, the shape of the DOI example in the cleaning tests |
| Quoting.QuoteEscapedBracket | clean_uri_graph.py:11-12 | `[` becomes `%5B`, and quoting `%5B` again gives `%255B` |
| Cleaning.CleanNode | clean_uri_graph.py:15-23 | IRIs stay IRIs and other terms stay non-IRIs; a node is unchanged iff it is not an IRI, or the validator accepts it, or it needs no escape; a changed node was rejected by the validator and is exactly `clean_uri` of the original IRI, well quoted, and unquotes to that IRI |
| Cleaning.CleanNodeIdempotent | clean_uri_graph.py:15-23 | if the validator accepts the cleaned form of every IRI it rejects and `clean_uri` changes, cleaning twice equals cleaning once |
| Cleaning.CleanNodeIdempotentIff | clean_uri_graph.py:15-23 | cleaning a node twice equals cleaning it once exactly when the node is not a rejected IRI that `clean_uri` changes, or the validator accepts its cleaned form |
| Cleaning.CleanNodeNotIdempotent | clean_uri_graph.py:15-23 | if the validator also rejects the cleaned form, a second cleaning changes the node again |
| Cleaning.CleanGraph | clean_uri_graph.py:26-31 | the cleaned graph holds the cleaned form of every input triple and nothing else, and it is never larger than the input (cleaning may merge triples) |
| Cleaning.CleanGraphKeepsValid | clean_uri_graph.py:26-31 | a graph whose triples cleaning leaves alone is returned unchanged |
| Cleaning.CleanGraphAllAccepted | clean_uri_graph.py:15-31 | when the validator accepts every IRI of the graph, in every position, `clean_graph` returns the same graph |
| Cleaning.CleanGraphIdempotent | clean_uri_graph.py:26-31 | when the validator accepts the cleaned form of every IRI of the graph that it rejects and `clean_uri` changes, cleaning the graph twice equals cleaning it once |
| MemoryStore.Init | pyrdfstore/store.py:180-183 | a new store is valid, its aggregate graph is empty, it has no named partitions and its registry is empty |
| MemoryStore.Insert | pyrdfstore/store.py:188-196 | the aggregate gains the statements; without a name nothing else changes; with a name, that partition (created if new) gains them and its registry entry becomes the current time; every other partition and registry entry is kept |
| MemoryStore.Drop | pyrdfstore/store.py:201-203 | the partition and the registry entry of the name are gone (missing ones are ignored); the aggregate and every other partition and entry are kept |
| MemoryStore.LastMod | pyrdfstore/store.py:198-199 | the registry entry if the graph is tracked, `KeyError` otherwise |
| MemoryStore.VerifyMaxAge | pyrdfstore/store.py:27-32 | with a comparable clock: an error iff the graph is untracked; otherwise true iff the time since the last change is at most `age_minutes` minutes |
| MemoryStore.VerifyMaxAgeAsWritten | pyrdfstore/store.py:27-32 | as written on `MemoryRDFStore`, every call fails: `KeyError` iff the graph is untracked, `TypeError` iff it is tracked |
| MemoryStore.FreshGraphAgeRaises | pyrdfstore/store.py:188-199 | right after an insert into a named graph, the as-written age check raises `TypeError`, while the age check with a comparable clock answers true |
| MemoryStore.VerifyMaxAgeTolerant | tests/test_basics.py:79-87 | an untracked graph gives false instead of an error; a tracked graph gives the same answer as `VerifyMaxAge` |
| MemoryStore.InsertKeepsValid | pyrdfstore/store.py:188-196 | inserting keeps the registry in step with the partitions, and every partition inside the aggregate |
| MemoryStore.DropKeepsValid | pyrdfstore/store.py:201-203 | dropping keeps the store valid |
| MemoryStore.InsertedIsFresh | pyrdfstore/store.py:188-196 | right after an insert into a named graph, it passes every non-negative age check |
| MemoryStore.InsertedAge | pyrdfstore/store.py:27-32 | after an insert at time t, the age check at a later time compares the elapsed time with the allowance |
| MemoryStore.AgeMonotone | pyrdfstore/store.py:27-32 | a passing age check still passes with a larger allowance or at an earlier time |
| MemoryStore.DefaultInsertKeepsAges | pyrdfstore/store.py:188-196 | inserting into the default graph leaves every age check as it was |
| MemoryStore.DropForgetsAge | pyrdfstore/store.py:201-203 | after a drop the graph's age check raises `KeyError`; no trace of the drop is left |
| MemoryStore.UnknownGraphAgeRaises | pyrdfstore/store.py:27-32 | on a new store, the age check of any graph raises `KeyError`, while the tolerant check answers false |
| MemoryStore.DropUnknown | pyrdfstore/store.py:201-203 | dropping a graph the store does not know changes nothing |
| MemoryStore.DropIdempotent | pyrdfstore/store.py:201-203 | dropping twice equals dropping once |
| MemoryStore.DropUndoesInsertExceptAggregate | pyrdfstore/store.py:188-203 | inserting into a fresh named graph and dropping it restores the partitions and the registry, but the aggregate keeps the statements |
| MemoryStore.DropSparesOthers | pyrdfstore/store.py:201-203 | dropping one graph leaves every other partition and the aggregate unchanged |
| LastmodBindings.Convert | pyrdfstore/store.py:134-143 | it fails iff some row's time does not parse; otherwise the keys are exactly the rows' paths, and each path maps to the parsed time of its last row |
| LastmodBindings.LaterRowWins | pyrdfstore/store.py:137-142 | with two rows for one path, the later row's time is kept |
| Factory.CreateBuild | pyrdfstore/build.py:15-30 | `None` gives the memory store; a list of at most two URIs fails the length assertion; a longer list fails for the missing `qryBuilder` |
| Factory.Connect | pyrdfstore/store.py:62-67 | the remote store reads from the read URI; it writes to the write URI, or to the read URI when the write URI is empty (`write_uri or read_uri`); its write endpoint is empty only if the read URI is |
| Factory.CreateRdfStore | pyrdfstore/rdfstore.py:13-32 | `None` fails in `len`; a list of at most two URIs fails the assertion; a longer list connects with the first URI as the read URI and the second as the write URI |
| Factory.CreateIntended | pyrdfstore/build.py:15-30 | the corrected dispatch: the memory store iff there is no list; one URI serves both reading and writing; two URIs are connected as the read and write URIs; an empty list or more than two URIs is an error |
| Factory.BuildSucceedsOnlyOnNone | pyrdfstore/build.py:16-30 | the build.py factory succeeds iff it is given no list |
| Factory.RdfStoreSucceedsOnlyOnLongLists | pyrdfstore/rdfstore.py:14-32 | the rdfstore.py factory succeeds iff it is given a list of three or more URIs |
| Factory.SingleUriRejected | pyrdfstore/build.py:18-26 | with one URI, both factories fail the assertion before reaching their one-URI branch |
| Factory.ExtraUrisIgnored | pyrdfstore/rdfstore.py:28-32 | URIs after the second never influence the result |
| Factory.RdfStoreInvertsIntended | pyrdfstore/rdfstore.py:14-16 | except for the empty list, the rdfstore.py factory succeeds exactly when the intended one refuses |
| Factory.EmptyWriteUriFallsBack | pyrdfstore/store.py:62-67 | an empty second URI makes the store write to the read endpoint, in the rdfstore.py factory and in the intended one |
| Factory.TwoUrisRejected | pyrdfstore/build.py:18-20 | a read URI and a write URI, the configuration the message allows, are refused by both factories and accepted by the intended one |

## Left out

- `URIRDFStore.select`, `insert`, `_update_registry_lastmod`, `lastmod_for_named_graph` and `drop_graph` send SPARQL through `SPARQLWrapper` over the network. Only their pure parts are modelled: the batch packer and the conversion of the registry rows. `insert` writes a registry entry after every batch, not once per call; that is network I/O and is not modelled.
- `MemoryRDFStore.select` and `URIRDFStore.select` run SPARQL queries, which are outside the model.
- Serialising a graph to N-Triples and the query templates of `pyrdfj2` belong to other libraries. `Batches.GraphToBatches` starts from the serialised text.
- `RDFStoreAccess`, `timestamp()`, logging, `pyrdfstore.common` and the `main` demo of clean_uri_graph.py are not modelled. They are glue, clock reads or printing.
- `check_valid_uri` wraps `validators.url`. That code is not part of this model, so the validator is a parameter.
- MemoryStore.VerifyMaxAge: compares integer microseconds, not the float `total_seconds()` of a `timedelta`. Its registry holds clock values rather than ISO text; `VerifyMaxAgeAsWritten` models the text.
- LastmodBindings.Convert: a row missing its `path` or `time` key (a `KeyError` in the source) is not modelled. Rows are records with both fields. The time format is the abstract `parse`.
- Utf8.DecodeEncode: Dafny characters are Unicode scalar values, so lone surrogates, which `quote` would refuse to encode, cannot occur.
- Batches.GraphToBatches: the enumeration order of `list(set(...))` is a parameter. The model therefore states properties for every order, not for CPython's hash order.
- Python `assert` statements are modelled as enabled, Python's default: each becomes an unconditional error (the packer's line-length check, store.py:166; the length checks of build.py:18 and rdfstore.py:14). Under `python -O` they vanish, so the packer would accept an over-long line, rdfstore.py would not evaluate `len(None)` and would reach its `None` and one-URI branches, and build.py would reach its one-URI branch. The factory findings below hold only with assertions enabled.
- `drop_graph` on the memory store removes the partition and the registry entry but leaves the aggregate graph `_all` untouched. `MemoryStore.Drop` and `MemoryStore.DropUndoesInsertExceptAggregate` state this.

## Findings

| source | as written | input that shows it | evidently intended | confidence | as-written member | corrected member |
|---|---|---|---|---|---|---|
| pyrdfstore/store.py:170 | the fit test `len(line) + len(groups[-1]) > max_str_size` ignores the `"\n"` that joins the line to a non-empty batch | `max_str_size = 3`, lines `"ab"` and `"c"`: one batch `"ab\nc"` of 4 characters | every batch shorter than `max_str_size` (doc-comment at lines 149-154) | high; not executed | Batches.PackExceedsLimit | Batches.PackStrict |
| pyrdfstore/build.py:16-20 | `assert len(info) > 2` while the message says "Max 2 arguments are allowed"; the remote branch also omits the required `qryBuilder` | `["http://a", "http://b"]`: AssertionError; any three URIs: TypeError | at most two URIs accepted, one URI used for both endpoints | high; not executed | Factory.BuildSucceedsOnlyOnNone | Factory.CreateIntended |
| pyrdfstore/rdfstore.py:14-19 | `len(info)` is evaluated before the `None` test, and the length assertion is inverted | `None`: TypeError; `["http://a"]`: AssertionError | `None` gives the memory store; one or two URIs give a remote store | high; not executed | Factory.RdfStoreInvertsIntended | Factory.CreateIntended |
| pyrdfstore/store.py:195 | the memory registry stores `timestamp()`, an ISO string, which `verify_max_age` subtracts from a `datetime` (line 31) | insert into `"urn:g"`, then `verify_max_age("urn:g", 1)`: TypeError | the registry keeps a time that the age check can compare | high; not executed | MemoryStore.FreshGraphAgeRaises | MemoryStore.VerifyMaxAge |
| pyrdfstore/store.py:27-32 | `verify_max_age` raises `KeyError` for a graph the registry does not hold | `verify_max_age("urn:unknown", 1)` on a new store | false for an unknown graph (tests/test_basics.py:79-87) | high; not executed | MemoryStore.UnknownGraphAgeRaises | MemoryStore.VerifyMaxAgeTolerant |
