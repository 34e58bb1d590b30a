# Torrust tracker: verified model

A Dafny model of the parts of the Torrust BitTorrent tracker whose behaviour is hardest to see from the
code, with machine-checked proofs. `dafny verify dfyconfig.toml` checks everything.

## What is modelled

| files | part of the tracker |
|---|---|
| `Wrappers` | the optional value used throughout |
| `ByteStrings`, `Bencode`, `BencodeGrammar`, `BencodeLaws`, `BencodeTheorems`, `BencodeErrors`, `BencodeCodec` | the bencode codec of `contrib/bencode` ("bencoding" section of BEP 3) |
| `Swarm` | the torrent entry: peers and completed counter, driven by announces and cleanups |
| `Repository`, `TwoLevelRepository` | the single-lock repository, and the locked map of shared locked entries, both as classes |
| `Interleaving`, `Linearisation` | concurrent runs of the two-level repository and of the skip map |
| `TrackerCore` | announce handling, write-through of the completed counter, restart, cleanup, peer lists |
| `ConnectionCookie` | connection identifiers of the UDP protocol (BEP 15), on 64-bit float patterns |
| `RunningAverage` | the rounded running averages of UDP processing times |
| `Query` | the URL query parser and printer |

The main results, in words:

- **Bencode.** The decoder accepts exactly a language given by a grammar (`DecodesIff`). From that follow
  locality, tiling and prefix-freeness; the round trip for every value, which succeeds if and only if the
  nesting fits; and the canonical form, which is exact: a strictly decoded buffer is its own re-encoding
  if and only if no integer and no key length in it carries a `+`, and under other options if and only if
  strict decoding accepts it as well and it has no such `+`. Keys are ordered by their first differing byte,
  and every error the decoder reports is true of the buffer at the reported position.
- **Swarm.** A run of announces decomposes into the runs of the single peers, so interleavings of
  different peers agree; after every run an id's latest announce is stored as it was made, or gone, exactly as
  stops and cutoffs say; completions obey a conservation law.
- **Concurrency.** In every interleaving, an announce stays in the map's entry exactly as long as its
  info-hash is not removed after the announce acquired the entry, and at exactly one place. Every operation
  is given one place in a history, between its start and its end: where it takes effect, or, for an announce
  whose info-hash is removed by name while it holds an entry, just before that removal. A run reads at every
  moment as this history run on the single-lock repository if and only if a stated condition holds at each
  step: one for updates, one for imports, one for sweeps of peerless torrents. Without sweeps and imports the
  conditions always hold, so every such interleaving linearises. Run alone, or torrent by torrent, the steps do
  what the single-lock methods do.
- **Persistence and time.** Database and memory agree in every reachable state, and with persistence off no run
  touches the database; under a clock that never goes back, peers that announce again within the timeout are
  stored at every moment, as last published; silent ones expire.
- **Cookies, averages, queries.** A cookie issued at a whole second is accepted exactly in its window of seconds;
  the set of fingerprints a cookie is valid for is one arc modulo 2^64 of a known size; the average's error bound is proved and reached for every number of samples, and holds over a
  whole run if and only if the counter is in step with the samples throughout; printing and parsing a query
  is exact under a condition that is also necessary.

## Where the code differs from what one might expect

Each of these has a lemma with a concrete input and one that says exactly when the expectation holds.

- `i+5e` is valid input to the bencode decoder and does not re-encode to itself (`SignedIntegerIsNotCanonical`, `CanonicalForm`, `CanonicalIff`).
- A client's requested number of peers is not an upper bound: the in-memory repository takes the larger of
  it and 74 (`WantedOneGetsTwo`, `WantedHonouredIff`). The documentation of `PeersWanted::limit` says otherwise; the code is followed.
- A torrent swept as peerless between an announce's `get_or_insert` and its update takes the announce with it
  (`RemovedTorrentTakesAnnounce`, `AbsUpdate`, `StepLinked`).
- A sweep that finds a torrent peerless and removes it a moment later also removes an announce made and
  finished in between, which no order of the two single-lock operations does
  (`SweepTakesFinishedAnnounce`, `StepLinked`).
- An import that meets an empty entry put there by an unfinished announce drops the persisted counter
  (`ImportMeetsEmptyEntry`, `StepLinked`).
- Requests over IPv6 are counted in the divisor of the averages but bring no samples
  (`Ipv6RequestsSkewTheAverage`, `Ipv6RequestsSkewLaterAverages`, `AccurateIff`).
- A connection cookie depends only on the sum of fingerprint and issue-time bits, so neighbouring fingerprints
  share cookies at neighbouring times (`NeighboursCollide`, `CookiesEqualIff`).
- A query name that starts with `?` survives in the middle of a query and is lost when printed first
  (`MarkedNameInFront`, `PrintParseIff`).

## Assumptions

- Counters stay below their 32- and 64-bit limits. `usize` is 64 bits wide.
- `BTreeMap` and `SkipMap` iterate in key order; `MultiMap` keeps insertion order per name and any order
  across names. `SkipMap::get_or_insert` and `remove` act at one point in time.
- Peer ids and info-hashes are the numbers their 20 bytes spell, so that byte order is number order.
- The cipher is a permutation of 64-bit blocks; the client fingerprint is any 64-bit number.
- The clock and the outcome of a database save are inputs. A restart clears memory and imports the database.
- The cookie window and the running average are computed in exact arithmetic. The patterns of 64-bit floats,
  their classification and their order are modelled bit by bit.

## Model

| member | source | states |
|---|---|---|
| DecimalText.ParseDecimal | contrib/bencode/src/mutable/encode.rs:20-26 | the printed text of every 64-bit integer parses back to it |
| DecimalText.DecimalOfParse | contrib/bencode/src/reference/decode.rs:45-67 | text the decoder takes as a number is the printed text of its value unless it starts with `+`, and is then longer |
| DecimalText.PlaceValue | contrib/bencode/src/reference/decode.rs:64-67 | digits have decimal place value |
| ByteStrings.LessIff | contrib/bencode/src/mutable/encode.rs:58-58 | the comparison of keys is the byte order: the first difference has the larger byte, or one key extends the other, in both directions |
| Bencode.DecodeInt | contrib/bencode/src/reference/decode.rs:37-68 | a success strictly advances, stays in the buffer, and is a 64-bit value |
| Bencode.DecodeStr | contrib/bencode/src/reference/decode.rs:72-88 | a success returns the last bytes of the slice it consumed, within the buffer |
| Bencode.Decode | contrib/bencode/src/reference/decode.rs:9-35 | for every buffer, position, options and depth decoding terminates; a success strictly advances, ends within the buffer and records exactly the slice consumed |
| Bencode.DecodeItems | contrib/bencode/src/reference/decode.rs:90-107 | the list loop terminates, advances and stays in the buffer |
| Bencode.DecodeEntries | contrib/bencode/src/reference/decode.rs:109-153 | the dictionary loop terminates, advances and stays in the buffer |
| Bencode.DecodeBuffer | contrib/bencode/src/reference/bencode_ref.rs:39-48 | the result's buffer is the consumed prefix, the whole input when full decoding is enforced |
| BencodeCodec.DecodeValue | contrib/bencode/src/reference/decode.rs:9-35 | the dispatching step computes the specified result, errors and positions included |
| BencodeCodec.DecodeList | contrib/bencode/src/reference/decode.rs:90-107 | the loop with its growing vector computes the specified list |
| BencodeCodec.DecodeDict | contrib/bencode/src/reference/decode.rs:109-153 | the loop with its growing map, order check before and duplicate check after the value, computes the specified map |
| BencodeCodec.Buffer.AppendInt | contrib/bencode/src/mutable/encode.rs:20-26 | appends the integer's encoding and nothing else |
| BencodeCodec.Buffer.AppendStr | contrib/bencode/src/mutable/encode.rs:28-34 | appends the string's encoding and nothing else |
| BencodeCodec.Buffer.AppendValue | contrib/bencode/src/mutable/encode.rs:7-18 | appends the value's encoding and nothing else |
| BencodeCodec.Buffer.AppendList | contrib/bencode/src/mutable/encode.rs:36-48 | the loop appends the list's encoding |
| BencodeCodec.Buffer.AppendDict | contrib/bencode/src/mutable/encode.rs:50-67 | sorts the entries and appends the dictionary's encoding |
| BencodeCodec.EncodeToBuffer | contrib/bencode/src/mutable/bencode_mut.rs:60-66 | a fresh buffer holds exactly the encoding |
| Dictionaries.SortAscending | contrib/bencode/src/mutable/encode.rs:56-58 | sorting distinct keys gives strictly ascending byte order |
| Dictionaries.SortMultiset | contrib/bencode/src/mutable/encode.rs:56-58 | sorting permutes the entries |
| Dictionaries.InsertAscending | contrib/bencode/src/reference/decode.rs:137-138 | inserting a vacant key keeps the map in key order |
| BencodeGrammar.KeysFitIff | contrib/bencode/src/reference/decode.rs:123-145 | the checks made entry by entry amount to distinct keys, and ascending keys when order is checked, in both directions |
| BencodeGrammar.TermDecodes | contrib/bencode/src/reference/decode.rs:9-153 | completeness: wherever an accepted term occurs, the decoder reads exactly it |
| BencodeGrammar.Derive | contrib/bencode/src/reference/decode.rs:9-153 | soundness: what the decoder reads is an accepted term with that node |
| BencodeLaws.DecodesIff | contrib/bencode/src/reference/decode.rs:9-157 | the decoder succeeds if and only if an accepted term occurs at the position |
| BencodeLaws.Relocate | contrib/bencode/src/reference/decode.rs:9-35 | locality: the consumed slice decodes to the same node in any buffer, position, looser options and depth |
| BencodeLaws.LooserOptionsAgree | contrib/bencode/src/reference/bencode_ref.rs:39-48 | loosening the options never changes a successful result |
| BencodeLaws.PrefixFree | contrib/bencode/src/reference/decode.rs:9-35 | no accepted encoding is a proper prefix of another, whatever options accepted them |
| BencodeLaws.BuffersRedecode | contrib/bencode/src/reference/bencode_ref.rs:52-60 | the buffer of the result and of every node below it re-decodes alone to that node |
| BencodeLaws.ListTiles | contrib/bencode/src/reference/decode.rs:90-107 | children's slices tile a list's slice in order |
| BencodeLaws.DictTiles | contrib/bencode/src/reference/decode.rs:109-153 | key texts and value slices tile a dictionary's slice in input order; the map holds exactly these entries in key order |
| BencodeLaws.DecodedShape | contrib/bencode/src/reference/decode.rs:9-35 | the value's height plus the depth is at most `max_recursion`; integers fit, dictionaries are ordered maps |
| BencodeTheorems.RoundTrip | contrib/bencode/src/mutable/encode.rs:7-67 | decoding an encoding succeeds if and only if the height is at most `max_recursion`, and then consumes every byte and returns the value, order check on or off |
| BencodeTheorems.RoundTripAt | contrib/bencode/src/mutable/encode.rs:7-67 | the same wherever the encoding stands in a buffer and at any depth |
| BencodeTheorems.EncodingIgnoresListing | contrib/bencode/src/mutable/encode.rs:56-66 | a dictionary's encoding does not depend on the order of `to_list` |
| BencodeTheorems.EncodedKeyOrder | contrib/bencode/src/mutable/encode.rs:50-67 | an encoded dictionary is its entries, each key followed by one that first differs at a larger byte or extends it, between `d` and `e` |
| BencodeTheorems.StrictKeyOrder | contrib/bencode/src/reference/decode.rs:120-135 | with the order check on, a dictionary is accepted if and only if its entries are and its keys are in that byte order |
| BencodeTheorems.EncodedExample | contrib/bencode/src/mutable/encode.rs:7-67 | a nested value encodes to `d1:ai1e1:bli-12e3:xyzee`, byte by byte |
| BencodeTheorems.EncodingsPrefixFree | contrib/bencode/src/mutable/encode.rs:7-67 | no value's encoding is a prefix of a different value's |
| BencodeTheorems.DecodeEncodeDecode | contrib/bencode/src/reference/bencode_ref.rs:39-48 | decode, encode, decode equals decode, for every accepted buffer under any options |
| BencodeTheorems.CanonicalForm | contrib/bencode/src/reference/decode.rs:37-68 | strict decoding then encoding gives the buffer back if and only if no integer or key length is `+`-signed, and is shorter otherwise, whichever accepted term spells the buffer |
| BencodeTheorems.CanonicalIff | contrib/bencode/src/reference/decode.rs:37-153 | under any options, decoding in full then encoding gives the buffer back if and only if the buffer is the text of a strictly accepted term without `+` |
| BencodeTheorems.PlainBufferIsCanonical | contrib/bencode/src/reference/decode.rs:120-149 | a strictly accepted buffer without the byte `+` is its own re-encoding |
| BencodeTheorems.SignedIntegerIsNotCanonical | contrib/bencode/src/reference/decode.rs:64-67 | `i+5e` is accepted and re-encodes to `i5e` |
| BencodeErrors.ErrorsExplain | contrib/bencode/src/reference/decode.rs:9-157 | for every buffer and options, the error reported is true of the buffer at its position: what is missing, malformed, too deep, out of order or repeated there |
| BencodeErrors.ItemTooDeep | contrib/bencode/src/reference/decode.rs:9-12 | an item below the deepest level is refused for its depth, whatever it is |
| BencodeErrors.ValueTooDeep | contrib/bencode/src/reference/decode.rs:9-13 | a value below the deepest level is refused for its depth after its key, even where the buffer ends |
| BencodeErrors.BadKeyRefused | contrib/bencode/src/reference/decode.rs:120-145 | after accepted entries, a key out of order is refused before its value is read, a repeated key after, and an error in the value comes first |
| Swarm.Metadata | packages/torrent-repository/src/entry/single.rs:15-23 | complete and incomplete are the seeders and leechers and add up to all stored peers |
| Swarm.ConsistentSeeders | packages/torrent-repository/src/entry/peer_list.rs:56-61 | when no stored peer has stopped, the seeders are exactly the peers with nothing left |
| Swarm.PeerDecomposition | packages/torrent-repository/src/entry/single.rs:53-74 | the stored peer of an id is what that id's announces alone make |
| Swarm.CounterDecomposition | packages/torrent-repository/src/entry/single.rs:60-67 | the counter grows by the sum over ids of each id's own counted completions |
| Swarm.InterleavingsAgree | packages/torrent-repository/src/entry/single.rs:53-74 | two runs in which every id makes the same announces in the same order end equal |
| Swarm.LatestAnnounceStored | packages/torrent-repository/src/entry/single.rs:53-78 | after every run of announces and cleanups, an id's latest announce is stored in every field if and only if it is no stop and no later cutoff reached its time, and otherwise nothing is |
| Swarm.UnheardPeer | packages/torrent-repository/src/entry/peer_list.rs:29-40 | without an announce of its own, a stored peer stays as it was until a cutoff reaches it |
| Swarm.CompletionAccounting | packages/torrent-repository/src/entry/single.rs:53-78 | conservation: completions counted, peers pending and pending peers lost equal pending at the start plus entered, in every run |
| Swarm.CompletionBound | packages/torrent-repository/src/entry/single.rs:53-78 | counted completions plus pending peers are at most the initial pending peers plus the starts |
| Swarm.RunKeepsConsistent | packages/torrent-repository/src/entry/peer_list.rs:29-40 | in every run no stored peer has stopped, every key is its peer's id, the counter never falls |
| Swarm.CleanupTwice | packages/torrent-repository/src/entry/peer_list.rs:37-40 | two removals of inactive peers act as the later cutoff alone |
| Repository.ListingIsComplete | packages/torrent-repository/src/repository/rw_lock_std.rs:80-92 | without pagination every torrent is listed once, under its info-hash, in info-hash order, and nothing else |
| Repository.PageExact | packages/torrent-repository/src/repository/rw_lock_std.rs:80-92 | any page holds the listed torrents from its offset on, as many as the limit allows |
| Repository.WalkListsAll | packages/torrent-repository/src/repository/rw_lock_std.rs:80-92 | pages at offsets 0, L, 2L, ... together list every torrent once, in info-hash order, and nothing else |
| Repository.PeersExcludingExact | packages/torrent-repository/src/entry/peer_list.rs:64-83 | a peer list is the first min(limit, available) other-address peers in id order |
| Repository.PeerListExact | packages/torrent-repository/src/entry/peer_list.rs:64-83 | the same in terms of the stored peers alone: in id order, all at other addresses, and one is left out only when the limit is reached and its id is larger |
| Repository.Measure | packages/torrent-repository/src/repository/rw_lock_std.rs:66-78 | the loop counts the torrents, all stored seeders and leechers, and sums the counters |
| Repository.MetricsCoverPeers | packages/torrent-repository/src/repository/rw_lock_std.rs:66-78 | complete plus incomplete is the number of stored peers |
| Repository.RwLockStd.Upsert | packages/torrent-repository/src/repository/rw_lock_std.rs:49-55 | only the torrent under the info-hash changes, from empty when absent, by the event machine |
| Repository.RwLockStd.Import | packages/torrent-repository/src/repository/rw_lock_std.rs:94-110 | exactly the absent torrents are added, without peers and with the persisted counter |
| Repository.RwLockStd.CleanInactive | packages/torrent-repository/src/repository/rw_lock_std.rs:117-124 | the loop cleans every torrent once |
| Repository.RwLockStd.CleanPeerless | packages/torrent-repository/src/repository/rw_lock_std.rs:126-130 | keeps exactly the torrents that meet the retaining policy |
| Repository.RwLockStd.GetMetrics | packages/torrent-repository/src/repository/rw_lock_std.rs:66-78 | measures the stored torrents |
| TwoLevelRepository.Entry.UpsertPeer | packages/torrent-repository/src/entry/single.rs:53-74 | updates the entry by the event machine and says whether a completion was counted |
| TwoLevelRepository.Entry.RemoveInactivePeers | packages/torrent-repository/src/entry/single.rs:76-78 | keeps the peers updated after the cutoff |
| TwoLevelRepository.RwLockStdMutexStd.Upsert | packages/torrent-repository/src/repository/rw_lock_std_mutex_std.rs:36-48 | on shared entries: the torrents behind the references change as in the single-lock repository |
| TwoLevelRepository.RwLockStdMutexStd.Import | packages/torrent-repository/src/repository/rw_lock_std_mutex_std.rs:89-108 | as the single-lock import, with fresh unshared entries |
| TwoLevelRepository.RwLockStdMutexStd.CleanInactive | packages/torrent-repository/src/repository/rw_lock_std_mutex_std.rs:115-122 | as the single-lock cleanup, in place |
| TwoLevelRepository.RwLockStdMutexStd.CleanPeerless | packages/torrent-repository/src/repository/rw_lock_std_mutex_std.rs:124-128 | as the single-lock retention |
| TwoLevelRepository.RwLockStdMutexStd.GetMetrics | packages/torrent-repository/src/repository/rw_lock_std_mutex_std.rs:61-73 | measures the torrents behind the references |
| Interleaving.RunInv | packages/torrent-repository/src/repository/rw_lock_std_mutex_std.rs:36-48 | in every interleaving the map holds an entry exactly until its info-hash is removed, entries replay their histories, finished announces are in them |
| Linearisation.UpsertAlone | packages/torrent-repository/src/repository/rw_lock_std_mutex_std.rs:36-48 | uninterrupted, the steps of an announce do what the single-lock upsert does, on the skip map and, with its lookup, on the two-level repository |
| Linearisation.SweepAlone | packages/torrent-repository/src/repository/skip_map_mutex_std.rs:101-109 | uninterrupted, a sweep can remove a torrent if and only if the single-lock sweep would, and does the same |
| Linearisation.WholeClean | packages/torrent-repository/src/repository/rw_lock_std.rs:117-124 | cleaning torrent by torrent is the single-lock cleanup |
| Linearisation.WholeSweep | packages/torrent-repository/src/repository/rw_lock_std.rs:126-130 | sweeping torrent by torrent is the single-lock retention |
| Linearisation.WholeImport | packages/torrent-repository/src/repository/rw_lock_std.rs:94-110 | importing torrent by torrent is the single-lock import |
| Linearisation.NoLostAnnounce | packages/torrent-repository/src/repository/skip_map_mutex_std.rs:26-29 | a finished announce is in the entry the map holds if and only if the info-hash was not removed since the announce acquired it |
| Linearisation.AppliedOnce | packages/torrent-repository/src/repository/skip_map_mutex_std.rs:26-29 | in every interleaving a task's announce stands in the histories at exactly one place once finished, and nowhere before |
| Linearisation.AbsUpdate | packages/torrent-repository/src/repository/rw_lock_std_mutex_std.rs:47-47 | an update acts as the single-lock upsert if the info-hash was not removed in between, and leaves no trace otherwise |
| Linearisation.StepLinked | packages/torrent-repository/src/repository/skip_map_mutex_std.rs:71-109 | for every step, the two repositories go on reading the same if and only if the step's condition holds; a sweep's removal is matched with the single-lock sweep, which spares retained torrents |
| Linearisation.LinearisesIff | packages/torrent-repository/src/repository/rw_lock_std.rs:45-131 | from any linked states, both repositories read the same all along a run if and only if every step meets its condition |
| Linearisation.ReadsIff | packages/torrent-repository/src/repository/rw_lock_std.rs:45-131 | from the start, a run reads at every moment as the history so far on the single-lock repository if and only if every step meets its condition |
| Linearisation.PlacedOnce | packages/torrent-repository/src/repository/skip_map_mutex_std.rs:26-29 | a finished announce has exactly one place in the history, one without an entry yet has none, one in between at most one |
| Linearisation.PlacedAsCalled | packages/torrent-repository/src/repository/skip_map_mutex_std.rs:26-29 | an announce stands in the history with its own info-hash and peer |
| Linearisation.RealTimeOrder | packages/torrent-repository/src/repository/skip_map_mutex_std.rs:26-29 | at every moment the history so far begins the whole one, holds the announces finished by then and none that starts later |
| Linearisation.Linearises | packages/torrent-repository/src/repository/rw_lock_std_mutex_std.rs:36-48 | runs in which no announce loses its entry to a sweep, no import meets an unfinished announce and no sweep removes a torrent worth keeping read as their history at every moment, removals by name included |
| Linearisation.SweepFreeLinearises | packages/torrent-repository/src/repository/skip_map_mutex_std.rs:26-94 | an interleaving of announces, imports, cleanups and removals by name reads as its history at every moment if and only if its imports meet their condition; always without imports |
| Linearisation.RemovedTorrentTakesAnnounce | packages/torrent-repository/src/repository/skip_map_mutex_std.rs:101-109 | a sweep between `get_or_insert` and update loses a finished announce, which both orders of the single-lock operations keep |
| Linearisation.SweepTakesFinishedAnnounce | packages/torrent-repository/src/repository/skip_map_mutex_std.rs:101-109 | a torrent found peerless, announced to and then removed loses the finished announce, which both orders of the single-lock operations keep |
| Linearisation.ImportMeetsEmptyEntry | packages/torrent-repository/src/repository/skip_map_mutex_std.rs:71-89 | an import meeting an unfinished announce's entry drops the persisted counter |
| TrackerCore.PeersReturned | packages/tracker-core/src/torrent/repository/in_memory.rs:163-168 | whatever a client asks for, it gets the first 74 other-address peers in id order |
| TrackerCore.PeersReturnedExact | packages/tracker-core/src/torrent/repository/in_memory.rs:163-168 | the same in terms of the stored peers alone |
| TrackerCore.WantedHonouredIff | packages/tracker-core/src/announce_handler.rs:231-267 | no more peers than asked for are returned if and only if there are no more or 74 were asked for |
| TrackerCore.WantedOneGetsTwo | packages/tracker-core/src/torrent/repository/in_memory.rs:163-168 | a client asking for one peer gets two |
| TrackerCore.WantedIsBounded | packages/tracker-core/src/announce_handler.rs:240-267 | an amount from 1 to 74 is taken as it is, any other as 74, alike for both integer types |
| TrackerCore.OwnAddressNotReturned | packages/torrent-repository/src/entry/peer_list.rs:64-83 | no peer at the announcer's own published address is returned |
| TrackerCore.PublishedExact | packages/tracker-core/src/announce_handler.rs:269-280 | the published address is the remote one, or the external one if the remote one is in 127.0.0.0/8 or ::1 and there is an external one; port and all else are as announced |
| TrackerCore.LoopbackNotPublished | packages/tracker-core/src/announce_handler.rs:269-280 | with a public external address no loopback address is published, and other addresses are kept |
| TrackerCore.Tracker.Announce | packages/tracker-core/src/announce_handler.rs:146-183 | publishes the address, updates memory and database, returns the new statistics and the peers |
| TrackerCore.Tracker.UpsertAndGetStats | packages/tracker-core/src/announce_handler.rs:188-210 | the counter is written through when the statistics change and persistence is on |
| TrackerCore.Tracker.CleanupTorrents | packages/tracker-core/src/torrent/manager.rs:94-104 | inactive peers go, then peerless torrents if configured; the database stays |
| TrackerCore.Tracker.LoadTorrentsFromDatabase | packages/tracker-core/src/torrent/manager.rs:74-80 | imports all persisted counters |
| TrackerCore.DatabaseWritten | packages/tracker-core/src/announce_handler.rs:195-208 | for every operation: the database changes only on an announce with persistence on, a save that succeeds and statistics that changed, and then only at the info-hash, to its new counter |
| TrackerCore.DatabaseUntouched | packages/tracker-core/src/announce_handler.rs:203-206 | with persistence off no run changes the database |
| TrackerCore.LoadedTorrents | packages/tracker-core/src/torrent/manager.rs:74-80 | a restart leaves exactly the persisted torrents, with their counters and no peers; a load adds the missing ones and changes nothing else |
| TrackerCore.CounterIsDurable | packages/tracker-core/src/announce_handler.rs:188-210 | with saves succeeding, database and memory agree on every torrent in every reachable state, restarts included, and no counter falls |
| TrackerCore.DatabaseNeverAhead | packages/tracker-core/src/announce_handler.rs:203-210 | even when saves fail, no stored count falls or passes memory's |
| TrackerCore.AnnounceDurableIff | packages/tracker-core/src/announce_handler.rs:195-208 | an announce keeps the counts equal if and only if its save succeeds or nothing is counted |
| TrackerCore.TotalNeverDecreases | packages/torrent-repository/src/entry/single.rs:25-35 | the total counted never decreases over a run |
| TrackerCore.CleanupKeepsCounterIff | packages/torrent-repository/src/entry/single.rs:25-35 | exactly when a cleanup loses a counter |
| TrackerCore.CleanupKeepsPeerIff | packages/tracker-core/src/torrent/manager.rs:94-98 | a cleanup keeps a stored peer, unchanged in every field, if and only if its timestamp is positive and younger than the timeout, and drops it otherwise |
| TrackerCore.ActivePeersSurvive | packages/tracker-core/src/torrent/manager.rs:94-104 | under a monotone clock, a peer announcing at gaps below the timeout is stored after every prefix of the run, cleanups at any times, in every field as last published |
| TrackerCore.SilentPeersExpire | packages/tracker-core/src/torrent/manager.rs:94-104 | a silent peer is gone for good after the first cleanup a timeout later |
| TrackerCore.CleanupAbsorbs | packages/tracker-core/src/torrent/manager.rs:94-104 | a later cleanup absorbs an earlier one; cleanup is idempotent |
| TrackerCore.AfterCleanup | packages/torrent-repository/src/repository/rw_lock_std.rs:117-130 | which torrents remain, in both directions: kept anyway, for their counter, or for an active peer; each with its counter and exactly its active peers, unchanged |
| TrackerCore.RunConsistent | packages/torrent-repository/src/entry/single.rs:53-74 | in every reachable state no stored peer has stopped and keys are peer ids |
| Float64.BitOrderIsValueOrder | src/servers/udp/connection_cookie.rs:139-151 | on unsigned patterns bit order is value order |
| Float64.NormalIff | src/servers/udp/connection_cookie.rs:100-104 | the normal patterns are those from 0x0010_0000_0000_0000 to 0x7FEF_FFFF_FFFF_FFFF below the sign |
| Float64.NextValue | src/servers/udp/connection_cookie.rs:139-151 | zero has value zero and each next pattern is larger by one unit in the last place, for every pattern |
| Float64.SignNegates | src/servers/udp/connection_cookie.rs:139-151 | the sign bit negates the value |
| Float64.WholeValue | src/servers/udp/handlers.rs:38-49 | the pattern of every whole number below 2^53 is normal and has that value |
| ConnectionCookie.WrappingIsModular | src/servers/udp/connection_cookie.rs:167-195 | signed wrap-around is arithmetic modulo 2^64 on patterns |
| ConnectionCookie.AssembleDisassemble | src/servers/udp/connection_cookie.rs:167-195 | assembling and disassembling undo each other |
| ConnectionCookie.CheckMade | src/servers/udp/connection_cookie.rs:99-154 | a cookie is accepted, expired or from the future as its issue time says, returned bit for bit |
| ConnectionCookie.CheckForeign | src/servers/udp/connection_cookie.rs:99-154 | under another fingerprint a cookie is judged by its issue-time bits shifted by the difference of the fingerprints; a time that is not normal gets no cookie and is refused as such |
| ConnectionCookie.CookiesEqualIff | src/servers/udp/connection_cookie.rs:99-111 | two cookies are equal if and only if fingerprint plus issue-time bits agree modulo 2^64; for one client, or at one time, if and only if all agrees |
| ConnectionCookie.NeighboursCollide | src/servers/udp/connection_cookie.rs:167-180 | the next fingerprint gets the same cookie at the preceding issue time |
| ConnectionCookie.CookieLifetime | src/servers/udp/handlers.rs:38-49 | accepted exactly from one second before issue to lifetime plus one second after, expired later |
| ConnectionCookie.LifetimeInSeconds | src/servers/udp/handlers.rs:38-49 | on a clock of whole seconds: accepted from one second before issue to lifetime plus one second after, expired later, from the future earlier |
| ConnectionCookie.WindowIsBitRange | src/servers/udp/connection_cookie.rs:133-153 | a window of positive normal times accepts exactly the patterns between its ends |
| ConnectionCookie.Selectivity | src/servers/udp/connection_cookie.rs:125-154 | the accepted fingerprints are one arc modulo 2^64 of bits(end) - bits(start) + 1 values |
| RunningAverage.MovesTowards | src/packages/udp_tracker_core/statistics/repository.rs:83-97 | the new average lies between the old one and the sample |
| RunningAverage.AverageError | src/packages/udp_tracker_core/statistics/repository.rs:83-97 | after n samples the average is at least the mean and exceeds it by at most (n - 1) / 2 |
| RunningAverage.ErrorBoundIsReached | src/packages/udp_tracker_core/statistics/repository.rs:91-94 | the bound is reached for every n |
| RunningAverage.AverageInRange | src/packages/udp_tracker_core/statistics/repository.rs:102-117 | the average lies between the smallest and the largest sample |
| RunningAverage.AccurateIff | src/packages/udp_tracker_core/statistics/repository.rs:83-97 | for the divisors of a whole run: the error bound holds after every number of samples, for all sample values, if and only if the divisor is k at the k-th sample |
| RunningAverage.EventsAverage | src/packages/udp_tracker_core/statistics/event/handler.rs:17-77 | any interleaving of requests and responses maintains the average of its samples under the counters they met |
| RunningAverage.InStepEvents | src/packages/udp_tracker_core/statistics/event/handler.rs:17-77 | a run of events in step keeps the average within the error bound and the range of the samples |
| RunningAverage.NeverAboveSamples | src/packages/udp_tracker_core/statistics/repository.rs:122-136 | however events interleave, the average never passes the largest sample |
| RunningAverage.Responses6Ignored | src/packages/udp_tracker_core/statistics/event/handler.rs:69-74 | responses over IPv6 have no effect wherever they stand in a run |
| RunningAverage.ResponseBeforeRequests | src/packages/udp_tracker_core/statistics/repository.rs:86-94 | a response before any counted request leaves the largest number, or zero for a zero sample |
| RunningAverage.Ipv6RequestsSkewTheAverage | src/packages/udp_tracker_core/statistics/event/handler.rs:69-74 | an IPv6 request halves the first average |
| RunningAverage.Ipv6RequestsSkewLaterAverages | src/packages/udp_tracker_core/statistics/event/handler.rs:57-74 | an IPv6 request between two IPv4 ones puts the second average outside the bound |
| RunningAverage.Metrics.HandleAll | src/packages/udp_tracker_core/statistics/event/handler.rs:4-81 | handling any events from the start, each counter is the number of its kind's requests over its protocol, each average depends on its kind's events alone, and kinds in step keep the error bound and the range |
| Query.ParseQuery | packages/http-protocol/src/v1/query.rs:112-124 | trims, splits and inserts pair by pair; the first bad pair is the error |
| Query.ParseIff | packages/http-protocol/src/v1/query.rs:112-124 | a query is accepted if and only if its trimmed text is the text of pairs without separators, and is made of these pairs; otherwise the first piece without exactly one `=` is named |
| Query.ParsePairIff | packages/http-protocol/src/v1/query.rs:167-185 | a piece is a pair if and only if it has exactly one `=`, and then is that pair's text |
| Text.CleanExact | packages/http-protocol/src/v1/query.rs:115-115 | blanks in front, then question marks, and blanks at the end are cut off, and none of these is left there |
| Text.WhitespaceCodes | packages/http-protocol/src/v1/query.rs:115-115 | the blanks are the 25 White_Space characters, by number |
| Query.FromVec | packages/http-protocol/src/v1/query.rs:127-137 | the loop builds the query of the list |
| Query.ReadParamVec | packages/http-protocol/src/v1/query.rs:85-93 | all values of a name in insertion order, or none |
| Query.FromPairsNamed | packages/http-protocol/src/v1/query.rs:131-133 | a query holds exactly the pairs of its list, name by name, in order |
| Query.CleanText | packages/http-protocol/src/v1/query.rs:115-115 | trimming printed pairs trims the first name and the last value |
| Query.PairsRoundTripIff | packages/http-protocol/src/v1/query.rs:170-221 | printed pairs parse back if and only if they have no separators and both ends are kept |
| Query.PrintParseIff | packages/http-protocol/src/v1/query.rs:139-150 | printing with the names in any order and parsing gives the query back if and only if the same holds of the printed pairs |
| Query.ParamsSurvive | packages/http-protocol/src/v1/query.rs:85-94 | for every list of safe pairs and every order of printing, each name is answered with the values at its places in the list, in order, or with none |
| Query.MarkedNameInFront | packages/http-protocol/src/v1/query.rs:115-115 | a name starting with `?` survives behind another and is lost in front |

## Left out

- HTTP, UDP and API servers, request parsing, authentication, whitelists and configuration: input, output and one-branch code.
- Database drivers and SQL: the torrent table is a map, a save succeeds or does nothing.
- Blowfish, the fingerprint hash and the random seed: any permutation and any fingerprint.
- Floating-point rounding of the cookie window and of the running average: exact arithmetic instead.
- The in-place sort of the encoder: a library call, modelled as a function on the entries and proved sorted and a permutation.
- Concurrent claims for the DashMap repository, whose upsert inserts after a miss without looking again, and for the two-phase removal of the async repositories.
- The async repositories and the other lock wrappers of an entry: the same logic again.
- Whole-repository cleanups and imports as single points in time: under concurrency they act torrent by torrent, and are linearised so.
- Concurrent announces in the persistence results: reading, updating and saving are separate steps, so announces are taken one at a time.
- Counters of requests, responses, errors, aborts and bans: each is one increment and enters no average.
- Removal of one named torrent in the two repository classes: one map operation. Under concurrency it is modelled.
- What a removal by name returns under concurrency: a reference to the shared entry, which late announces still reach.
- Pagination and metrics of the skip map: the same expressions as in the single-lock repository.
- The order of scrape statistics: it comes from a hash map.
