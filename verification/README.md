# Verified models of the node's core algorithms

This project models, in Dafny 4.11, the parts of the node that keep several
structures in step or move numbers between representations, and proves what
those parts promise. `dafny verify dfyconfig.toml` checks everything.

| files | what they model |
|---|---|
| `AddrTypes`, `AddrState`, `AddrInvariant`, `AddrTheorems`, `AddrRuns`, `AddrManager` | the stochastic address manager: state, transitions, invariant, the class whose methods update the tables in place |
| `AddrRecords` | what each operation of the manager writes, field by field, into records and buckets |
| `AddrSelection`, `AddrWitness` | when the entry given up by a full tried bucket is the one it should be, and a manager in which it is not |
| `AddrCheck` | the debug check of the manager, and exactly what it establishes |
| `AddrDisk`, `AddrReload` | writing the manager out and rebuilding it from the stream |
| `Radix`, `Bits`, `Mpi`, `Compact`, `Numerals`, `BigNum` | positional numerals, shifts and masks bit by bit, the length-prefixed byte form of big numbers, the compact form of targets, hexadecimal text, and the class that converts between them |
| `Chars`, `Base58`, `Base58Check` | C strings and white space, base58, checksums, secrets and addresses |
| `Base64` | the base64 codec (section 4 of RFC 4648) |
| `Bloom` | the filter that updates itself while it matches (BIP 37) |
| `LockedPages` | counted locks on memory pages |
| `Alerts` | the table of alerts that cancel one another |
| `Common` | options, sets and sequences, the visiting order of ordered containers |

## How the models are built

An object that the program updates in place is a class here, with the same
fields and the same loops. Each method is proved to compute a function of the
state it found (`View() == Good(net, old(View()), addr, nTime, rnd)`), and the
theorems are about those functions, so they hold of every state and of every
sequence of calls. Each public call is one atomic step with one value of the
clock.

What the program takes from elsewhere is a parameter: the keyed hashes, the
address group and the routability test (`Network`), the double hash of a
base58 checksum, the filter's hash function, the data a script pushes and the
kind of an output, whether a signature is good, the adjusted time. Random draws
are a sequence of answers; a missing answer, or one outside the range asked
for, counts as 0, so that every sequence is a possible source and every outcome
of a draw is covered.

## Where code and documentation disagree

* `src/addrman.cpp:130-131` says that the least recently tried of the inspected
  entries is found. The position returned is the one that entry was drawn from,
  before it was moved to the front, so it need not hold that entry. It does,
  whatever the records say, exactly when all draws of the inspection are 0
  (`SelectedIsOldest`); for given records, exactly when the draw of the round
  that first met an oldest entry is 0 or reached an entry as old
  (`SelectedExactly`). `MostRecentEvicted` gives a consistent manager with a
  full tried bucket in which a good report sends the most recently successful
  record back to the new table.
* `src/addrman.cpp:457` looks an address up with `operator[]`, which inserts an
  absent address with id 0. `Check` models this; no verdict depends on it.
* `src/base58.h:252-257` gives 5 and 196 as the versions of script addresses;
  the code uses 9 and 199, and so does the model.
* `src/bignum.h:327` truncates the size to eight bits: the compact form is close
  to the number for all magnitudes below 2^2039 and for no other
  (`Compact.RoundTrip`). Encoding again what was decoded gives back exactly the
  proper codes, those an encoder can mean (`Compact.CodeReturns`).
* `src/base58.h:29-67` encodes by way of a number whose byte form has a
  four-byte length. From 2^32 - 1 bytes on that form is refused, the number
  stays 0, and only the leading zeros are encoded: the encoding is right exactly
  for shorter strings and for strings of zeros (`Base58.EncoderExact`).
* `src/allocators.h:64` never leaves its loop for a range that ends on the last
  page of the address space, and locks the wrong pages for one that wraps
  around (`LoopEndsExactly`, `HandledExactly`).

## Model

| member | source | states |
|---|---|---|
| AddrTypes.GetTriedBucket | src/addrman.cpp:10-22 | the tried bucket of a service is one of 64, whatever the hash returns |
| AddrTypes.GetNewBucket | src/addrman.cpp:24-36 | the new bucket of an address and a source is one of 256 |
| AddrTheorems.GroupsSpread | src/addrman.cpp:10-36 | all addresses of one group share at most 4 tried buckets, and all addresses heard of from one group share at most 32 new buckets; one hash of the service, or of the two groups, chooses among them |
| AddrTheorems.ServiceKeys | src/netbase.cpp:1102-1110 | what is hashed of a service is its address and its port, most significant byte first, and differs for different services |
| AddrState.Find | src/addrman.cpp:81-92 | an id found is on record and is the one the index holds for the address |
| AddrInvariant.FindExact | src/addrman.cpp:81-92 | in a consistent manager an address is found exactly when it is in the index, under a record for that address |
| AddrManager.AddrMan.constructor | src/addrman.h:382-390 | a new manager is empty and consistent |
| AddrManager.AddrMan.Lookup | src/addrman.cpp:81-92 | the two map lookups return the id on record, or nothing |
| AddrManager.AddrMan.Create | src/addrman.cpp:94-104 | the new record gets a fresh id, the last position and an index entry; nothing else changes |
| AddrManager.AddrMan.SwapRandom | src/addrman.cpp:106-124 | exactly two entries of the random order trade places, and their stored positions with them |
| AddrState.SwapKeeps | src/addrman.cpp:106-124 | after a swap the stored positions are again the inverse of the random order |
| AddrInvariant.SwapRecords | src/addrman.cpp:106-124 | a swap changes positions only: every other part of every record and all other state stay |
| AddrManager.AddrMan.SelectTried | src/addrman.cpp:126-148 | the loop leaves the shuffled bucket and returns the recorded position; no other state changes |
| AddrState.InspectElements | src/addrman.cpp:134-139 | the partial shuffle keeps the bucket's elements |
| AddrInvariant.InspectMeaning | src/addrman.cpp:130-145 | the shuffled bucket is a permutation, and the entry remembered is the least recently successful of those inspected |
| AddrSelection.SelectedIsOldest | src/addrman.cpp:130-147 | the returned position holds a least recently successful entry of those inspected, whatever the records, exactly when every draw of the inspection is 0 |
| AddrSelection.SelectedExactly | src/addrman.cpp:130-147 | for given records, the position returned and the exact condition, on the shuffled bucket and one draw, under which it holds such an entry |
| AddrWitness.MostRecentSelected | src/addrman.cpp:130-147 | in a full bucket, four draws for which the position of the most recent entry of all is returned although the oldest is inspected |
| AddrWitness.MostRecentEvicted | src/addrman.cpp:231-257 | a consistent manager and draws for which a good report returns the most recently successful tried record to the new table |
| AddrManager.AddrMan.FindTerrible | src/addrman.cpp:155-173 | the first record of the list bad enough to delete, none before it being so, or none if there is none |
| AddrManager.AddrMan.PickOldest | src/addrman.cpp:175-188 | a record at one of the (up to four) drawn positions, than which no record at a drawn position is older |
| AddrState.FirstTerribleLeast | src/addrman.cpp:155-173 | of the records bad enough to delete the one with the least id is taken |
| AddrState.OldestPickedMeaning | src/addrman.cpp:175-188 | the scan of any part of the bucket has the oldest of the drawn positions in it, or none was drawn there |
| AddrState.VictimMember | src/addrman.cpp:155-189 | the record chosen to leave is the bucket's own: the bad one with the least id, or without a bad one the oldest at the drawn positions |
| AddrManager.AddrMan.Release | src/addrman.cpp:191-199 | the record leaves one bucket, and the manager with its last reference |
| AddrInvariant.ForgetKeeps | src/addrman.cpp:193-197 | deleting a record removes its address and its place in the random order and nothing else |
| AddrInvariant.ReleaseKeeps | src/addrman.cpp:162-170 | releasing keeps every index consistent, touches no tried record, and forgets an address only with its last reference |
| AddrManager.AddrMan.ShrinkNew | src/addrman.cpp:150-202 | exactly that record is released from the bucket; the code returned says whether there was one bad enough to delete |
| AddrManager.AddrMan.Uproot | src/addrman.cpp:208-216 | the record is out of every new bucket and its reference count is down to zero, as asserted |
| AddrManager.AddrMan.Evict | src/addrman.cpp:231-258 | the incoming record takes the slot, and the outgoing one goes to its own new bucket or to the origin of the incoming one |
| AddrManager.AddrMan.MakeTried | src/addrman.cpp:204-260 | the whole promotion, through either exit, computes the promoted state |
| AddrInvariant.EvictShape | src/addrman.cpp:231-258 | in a bucket of 64 exactly two records change status, and the evicted one sits in its own new bucket, or in the origin where that holds 64 |
| AddrInvariant.EvictReady | src/addrman.cpp:231-240 | the position selected for eviction holds a tried record other than the incoming one, so the assertion on it holds |
| AddrInvariant.EvictHasRoom | src/addrman.cpp:245-253 | the bucket the evicted record goes to has room, also when it is the fallback |
| AddrInvariant.EvictKeepsTried | src/addrman.cpp:256-258 | after the exchange each tried record is still in exactly one slot of the bucket its hash names |
| AddrInvariant.MadeTriedPromotes | src/addrman.cpp:204-260 | promotion keeps all indexes consistent and the set of known addresses unchanged, even through an eviction |
| AddrTheorems.MadeTriedRecord | src/addrman.cpp:204-260 | promotion changes nothing but status and reference count, and those of at most two records |
| AddrManager.AddrMan.FindOrigin | src/addrman.cpp:289-301 | the search round from a random bucket returns a bucket that holds the record |
| AddrState.Origin | src/addrman.cpp:289-301 | a bucket returned holds the id, and none is returned only if no bucket does |
| AddrTheorems.OriginFound | src/addrman.cpp:289-305 | the exit for "no bucket found" is never taken on an untried record |
| AddrManager.AddrMan.Settle | src/addrman.cpp:285-310 | a record is promoted from the bucket found, unless it is tried already |
| AddrManager.AddrMan.Succeed | src/addrman.cpp:279-283 | the record has the time of the success in three fields, modulo 2^32 in one of them, and no attempts |
| AddrManager.AddrMan.MarkGood | src/addrman.cpp:262-311 | a report on a known service writes that success and makes the record tried, keeps all but status and reference count of every other record, and places it in its bucket; any other report changes nothing |
| AddrTheorems.GoodKeeps | src/addrman.cpp:262-311 | a good report on a known service ends with it tried and forgets no address; on any other service it does nothing |
| AddrRecords.GoodRecord | src/addrman.cpp:262-311 | field by field, what a good report leaves in the record, in every other record and in the book |
| AddrRecords.GoodPlaced | src/addrman.cpp:218-310 | the record goes behind fewer than 64 others of its bucket, or takes the slot that the inspection of 64 selects; the one there returns to its own new bucket, or where that holds 64 to the first that held the record on the way round from the drawn one |
| AddrRecords.TerribleExactly | src/addrman.cpp:38-56 | exactly which records are bad, with all times and counts as numbers |
| AddrRecords.GoodRedeems | src/addrman.cpp:38-56 | after a good report a record is not bad for just 30 days, whatever it was before |
| AddrRecords.FailuresDoom | src/addrman.cpp:38-56 | three attempts in any run of attempts, and never a success, make a record bad a minute after the last |
| AddrManager.AddrMan.Refresh | src/addrman.cpp:324-331 | the record gets the announced time, less the penalty, exactly when it had none or one older by an hour (a day for an address not seen for a day) and the penalty; the services are joined and the rest is kept |
| AddrManager.AddrMan.MayPromote | src/addrman.cpp:333-350 | whether the address gets one more bucket, with odds of 1 in 2^references |
| AddrManager.AddrMan.Discover | src/addrman.cpp:351-357 | the record of a new address, with the penalized time and the counter |
| AddrManager.AddrMan.File | src/addrman.cpp:359-367 | the record is in the bucket, with room made first when it was full |
| AddrInvariant.FiledKeeps | src/addrman.cpp:359-367 | filing completes the reference count, keeps all indexes consistent and loses at most one other address, never a tried one |
| AddrManager.AddrMan.AddOne | src/addrman.cpp:313-369 | for every address and draws, field by field, the record of a known or a new address, whether it got one more bucket, which record gave way for it, and the result |
| AddrRecords.AddKnownRecord | src/addrman.cpp:322-350 | what hearing of a known address again writes: time, services, and one more bucket with odds of 1 in 2, 4 or 8 for 1, 2 or 3 references |
| AddrRecords.AddUnknownRecord | src/addrman.cpp:351-368 | every field of the record of a new address, and the bucket it is filed in |
| AddrRecords.FiledRecord | src/addrman.cpp:359-367 | filing adds one entry and one reference; in a bucket of 64 exactly one other record loses an entry and a reference, and is deleted with its last one |
| AddrRecords.LeavesGivesWay | src/addrman.cpp:155-189 | the record that gives way is the bad one with the least id, or else the oldest, and of several as old the first, of those at the four drawn positions |
| AddrInvariant.AddKnownKeeps | src/addrman.cpp:322-350 | hearing of a known address again keeps it known and the tried table untouched |
| AddrInvariant.AddUnknownKeeps | src/addrman.cpp:351-368 | a new routable address ends up known, at the price of at most one untried other |
| AddrTheorems.NewcomerFiled | src/addrman.cpp:351-367 | a new address is on record untried, with its source and penalized time, in the new bucket that it and its source choose |
| AddrInvariant.AddKeeps | src/addrman.cpp:313-369 | adding forgets at most one address, never a tried one and never the one added; the result says whether it was new |
| AddrManager.AddrMan.Attempted | src/addrman.cpp:371-388 | on the exact service, one more attempt and the time of it, and nothing else; on any other, nothing |
| AddrTheorems.AttemptKeeps | src/addrman.cpp:371-388 | an attempt keeps all indexes and every status |
| AddrRecords.AttemptRecord | src/addrman.cpp:371-388 | field by field, what an attempt leaves in the record, and that all else is kept |
| AddrManager.AddrMan.MarkConnected | src/addrman.cpp:510-528 | on the exact service, a time more than twenty minutes old becomes the time of the connection modulo 2^32; nothing else changes |
| AddrTheorems.ConnectedKeeps | src/addrman.cpp:510-528 | a connection keeps all indexes and every status |
| AddrRecords.ConnectedRecord | src/addrman.cpp:510-528 | field by field, what a connection leaves in the record, and that all else is kept |
| AddrManager.AddrMan.Pick | src/addrman.cpp:501-507 | one round brings one record forward and appends its address |
| AddrManager.AddrMan.GetAddr | src/addrman.cpp:494-508 | the loop returns the picks of the shuffle and keeps the manager consistent |
| AddrTheorems.ShuffleKeeps | src/addrman.cpp:500-507 | the shuffle changes nothing but the random order and the positions in it |
| AddrTheorems.ShuffleFixed | src/addrman.cpp:501-507 | later rounds leave the positions already picked untouched |
| AddrTheorems.PicksAre | src/addrman.cpp:506 | each address was read from the record that ends up at its position, as it was before the call |
| AddrTheorems.GetAddrMeaning | src/addrman.cpp:494-508 | exactly min(23 * size / 100, 2500) addresses are returned, all known and no two alike |
| AddrTheorems.TriedCapacity | src/addrman.h:122-126 | the tried table never holds more than 64 * 64 records |
| AddrTheorems.NewCapacity | src/addrman.h:128-132 | the new table never holds more than 64 * 256 distinct records |
| AddrTheorems.SizeBound | src/addrman.h:99-132 | the number of addresses is the sum of the two counters and at most 64 * 64 + 256 * 64 |
| AddrRuns.Step | src/addrman.cpp:262-528 | each public operation leads from a consistent state to a consistent state |
| AddrRuns.EmptyConsistent | src/addrman.h:382-390 | the manager without any record satisfies the invariant and the time stamp conditions |
| AddrRuns.Run | src/addrman.cpp:435-491 | every finite run of operations with any random answers ends in a consistent state |
| AddrRuns.RunStamped | src/addrman.cpp:449-460 | runs with success times above 0 and attempt times not below 0 also keep the time stamps in order |
| AddrRuns.RunBounded | src/addrman.h:99-132 | no run ever outgrows the design limits |
| AddrManager.AddrMan.CheckRecord | src/addrman.cpp:446-460 | the tests of one record, the first one failed giving the code, with the entry an absent address leaves in the index |
| AddrManager.AddrMan.CheckRecords | src/addrman.cpp:442-461 | the first loop collects exactly the tried ids and the reference counts of the others |
| AddrManager.AddrMan.CheckTriedTable | src/addrman.cpp:466-474 | the striking-out loop passes only if no id is in two slots and every slot holds a tried id |
| AddrManager.AddrMan.CheckNewTable | src/addrman.cpp:476-485 | the counting loop leaves exactly the references not met in any bucket |
| AddrManager.AddrMan.CheckCounts | src/addrman.cpp:463-490 | the totals and both tables, with the code of a real fault otherwise |
| AddrManager.AddrMan.Check | src/addrman.cpp:435-491 | the check returns 0 exactly on the tables that pass, and otherwise the code of a fault they have |
| AddrCheck.FaultFails | src/addrman.cpp:440-488 | a code other than 0 is never a false alarm |
| AddrCheck.CodeMeaning | src/addrman.cpp:440-488 | what each code tells about the fields of some record or about the counters |
| AddrCheck.Entered | src/addrman.cpp:457 | inserting an absent address with id 0 changes the result of no such lookup |
| AddrCheck.CheckedPermutation | src/addrman.cpp:440-464 | by the pigeonhole principle, tables that pass list every id exactly once in the random order |
| AddrCheck.CheckedTried | src/addrman.cpp:466-474 | tables that pass, with each id in the bucket its hash names, hold each tried id in exactly one slot |
| AddrCheck.CheckedNew | src/addrman.cpp:476-485 | tables that pass hold each untried id in exactly as many buckets as it counts references |
| AddrCheck.CheckExact | src/addrman.cpp:435-491 | the full invariant is what the check tests together with the conditions it does not look at, no more and no less |
| AddrDisk.OrderMeaning | src/addrman.h:283-306 | the records written are all records, each once, the untried ones first |
| AddrDisk.PassDone | src/addrman.h:287 | stopping as soon as the counter is reached leaves out no record |
| AddrDisk.WriteNew | src/addrman.h:283-295 | the first pass writes the untried records in id order and maps each to its position |
| AddrDisk.WriteTried | src/addrman.h:296-306 | the second pass writes the tried records in id order |
| AddrDisk.WriteBuckets | src/addrman.h:307-317 | the third pass writes each new bucket as its size and the positions of its records |
| AddrDisk.Serialize | src/addrman.h:270-317 | the whole stream: header, records, buckets |
| AddrReload.StreamMeaning | src/addrman.h:251-306 | the stream starts with version, key, two counters and the number of buckets, and goes on with six fields of each record |
| AddrReload.EntryAt | src/addrman.h:307-317 | each entry of a bucket is the place where its record was written |
| AddrReload.SizeAt | src/addrman.h:307-317 | each bucket is its size and then its entries, one bucket after the other |
| AddrReload.RoomLeft | src/addrman.h:346-358 | when a tried record is read its bucket always has room |
| AddrReload.FillRoom | src/addrman.h:370-375 | the cap on references never drops a bucket entry that was written |
| AddrReload.ReadNewRecords | src/addrman.h:327-340 | reading the untried records rebuilds ids, index and random order |
| AddrReload.ReadTriedRecords | src/addrman.h:341-360 | reading the tried records puts each into the bucket it hashes to and loses none |
| AddrReload.ReadBuckets | src/addrman.h:361-377 | reading the buckets restores every membership and reference count |
| AddrReload.Unserialize | src/addrman.h:318-378 | reading what a consistent manager wrote loses no record and gives that manager up to renaming, consistent again |
| AddrReload.RenamedConsistent | src/addrman.h:262-263 | rebuilding the dropped indexes around new ids gives a state that satisfies the whole invariant |
| AddrReload.RenamedStamped | src/addrman.cpp:449-460 | the time stamp conditions survive the round trip too |
| AddrReload.SameAddresses | src/addrman.h:248-380 | the same addresses are known afterwards, each with seven fields of its record as before and the last try at 0, in the same tried and new buckets |
| AddrReload.Restore | src/addrman.h:248-380 | a manager written and read into another loses no record and is that manager up to renaming |
| Radix.ValueDigits | src/bignum.h:362-386 | the digits found by repeated division spell the number, in any base |
| Radix.DigitsValue | src/bignum.h:362-386 | a numeral without leading zeros is the one its value has |
| Mpi.PayloadRoundTrip | src/bignum.h:240-265 | the sign-and-magnitude byte form determines the number and wastes no byte |
| Mpi.PayloadMeaning | src/bignum.h:240-265 | the bytes are the magnitude, most significant first, with the sign in the top bit |
| Mpi.PayloadCanonical | src/bignum.h:240-265 | a byte form comes back from its number exactly when no leading byte could be spared |
| Mpi.StreamRoundTrip | src/bignum.h:240-253 | a stream with the length in front is read as its payload, and not at all when the length does not fit four bytes |
| Mpi.HeaderMeaning | src/bignum.h:240-253 | the four bytes of the length are its numeral, most significant first |
| Mpi.VchRoundTrip | src/bignum.h:240-265 | a number survives the trip through a little-endian vector exactly when its size fits the four-byte length field |
| Mpi.VchCanonical | src/bignum.h:240-265 | a vector is read exactly when its size fits the length field, and then survives the trip through a number exactly when its last byte could not be spared |
| BigNum.CBigNum.Emit | src/bignum.h:148-160 | one more magnitude byte in the buffer keeps it the payload of the value so far, with the sign in or before the first byte that is not zero |
| BigNum.CBigNum.EmitWord | src/bignum.h:145-161 | the eight shifted-out bytes leave the payload of the whole word, inside the fixed buffer |
| BigNum.CBigNum.Adopt | src/bignum.h:162-167 | the length filled in makes the buffer a stream that is read as the signed number |
| BigNum.CBigNum.SetInt64 | src/bignum.h:125-168 | every signed 64-bit number is taken over exactly, the least one included |
| BigNum.CBigNum.SetUint64 | src/bignum.h:170-195 | every unsigned 64-bit number is taken over exactly |
| BigNum.CBigNum.EmitNumber | src/bignum.h:201-216 | the 32 bytes, from the top, leave the payload of the number they make |
| BigNum.CBigNum.SetUint256 | src/bignum.h:197-223 | every 256-bit number is taken over exactly, inside the fixed buffer |
| BigNum.CBigNum.GetUint256 | src/bignum.h:225-238 | the result is the magnitude modulo 2^256 |
| BigNum.CBigNum.SetVch | src/bignum.h:240-253 | the number is the one the vector stands for, and stays as it was if the length field cannot hold the size |
| BigNum.CBigNum.GetVch | src/bignum.h:255-265 | the vector is the reversed payload of the number |
| Bits.Fields | src/bignum.h:291-293 | shift and masks, bit by bit, take the size, the sign and the mantissa out of a word |
| Bits.Joined | src/bignum.h:327-328 | joining size, sign and mantissa bit by bit adds them, with the size cut down to eight bits |
| BigNum.CBigNum.SetCompact | src/bignum.h:289-306 | the shifts and masks compute the decoder, for every 32-bit word |
| BigNum.CBigNum.GetCompact | src/bignum.h:308-330 | the shifts and masks compute the encoder, for every number, in 32 bits |
| Compact.NormalIs | src/bignum.h:310-326 | size and mantissa scale the number to its top bytes, with the sign bit of the mantissa free |
| Compact.CodeMeaning | src/bignum.h:289-306 | the number of a word is its mantissa scaled by its size and cut to a whole number, with its sign bit |
| Compact.SizeFits | src/bignum.h:327 | the size fits its eight bits exactly for magnitudes below 2^2039 |
| Compact.RoundTrip | src/bignum.h:289-330 | for numbers other than 0, decoding the encoding keeps the sign, cuts the magnitude and by less than one part in 2^15, exactly when the magnitude is below 2^2039 |
| Compact.Monotone | src/bignum.h:289-330 | encoding, and decoding the encoding, keep the order of non-negative numbers below 2^2039 |
| Compact.CodeReturns | src/bignum.h:289-330 | the 32-bit words that come back when decoded and encoded again are exactly the proper ones |
| Compact.Canonical | src/bignum.h:289-330 | encoding what was decoded from an encoding gives the same encoding exactly when that is proper, as it is for every number below 2^2039 of either sign |
| Compact.WrappedSize | src/bignum.h:289-330 | no number whose size is a multiple of 256 bytes has an encoding that comes back |
| BigNum.CBigNum.SetHex | src/bignum.h:332-360 | the scanner reads a number as the grammar of blanks, sign, prefix and digits says |
| BigNum.CBigNum.ToString | src/bignum.h:362-386 | repeated division gives the signed numeral of the number in any base from 2 to 16 |
| Numerals.ReadText | src/bignum.h:332-360 | a hexadecimal numeral is read back with or without prefix, after any blanks and before anything that could not belong to it |
| Numerals.HexDigitMeaning | src/bignum.h:348-356 | the digits are the sixteen of either case, and each means its place among them |
| Numerals.TextMeaning | src/bignum.h:362-386 | the text is a minus for a negative number and the digits of its magnitude in the base, most significant first, without a zero in front |
| Numerals.ReadWritten | src/bignum.h:388-391 | every number, of either sign, is read back from its own hexadecimal text |
| Chars.StripIs | src/base58.h:84-98 | what is left between blanks is determined by having none at its ends |
| Chars.SpaceExactly | src/base58.h:84 | exactly six characters are blank |
| Chars.ContentBlank | src/base58.h:84-98 | white space around a C string does not change what it holds |
| Base58.DigitOfLetter | src/base58.h:26 | no letter occurs twice in the alphabet, none is white space, and the letter for zero is `1` |
| Base58.LettersOrdered | src/base58.h:26 | the letters are the ASCII digits and letters in their order without 0, I, O and l |
| Base58.RebaseTwice | src/base58.h:29-121 | changing a numeral's base and changing it back gives the same numeral, leading zeros included |
| Base58.DecodeEncode | src/base58.h:29-121 | every byte string is decoded from its encoding, with any white space around that |
| Base58.EncodeDecode | src/base58.h:29-121 | a string decodes to given bytes exactly when its content is their encoding, and decodes at all exactly when its content consists of letters |
| Base58.EncodeMeaning | src/base58.h:29-67 | an encoding has a `1` for each leading zero byte, and spells in base 58 the number the bytes spell in base 256 |
| Base58.Whitespace | src/base58.h:84-98 | white space around any string never changes its decoding |
| Base58.UnsignedVch | src/base58.h:35-42 | the zero put in front makes the vector read as the non-negative number of the bytes for up to 2^32 - 2 bytes, and not read at all beyond |
| Base58.EncoderExact | src/base58.h:29-67 | what the encoder writes is the encoding exactly for strings of at most 2^32 - 2 bytes and strings of zeros |
| Base58.EncodeBase58 | src/base58.h:29-67 | the division loop, the loop over zeros and the reversal, for every byte string, and exactly when they give the encoding |
| Base58.ReadLetters | src/base58.h:87-103 | the loop accepts exactly the strings whose content is spelled with letters, and gathers their value |
| Base58.TrimmedVch | src/base58.h:105-110 | dropping the sign byte leaves exactly the base 256 digits |
| Base58.DecodeBase58 | src/base58.h:77-121 | the whole decoder computes the decoding, and returns an empty vector when it fails |
| Base58Check.CheckExact | src/base58.h:134-162 | with any hash, a string is accepted with given bytes exactly when its content is their checked encoding |
| Base58Check.CheckSigned | src/base58.h:145-162 | a string is accepted with given bytes exactly when it decodes to them and four bytes more, whose value, least significant first, is the hash modulo 2^32 |
| Base58Check.ChecksumSigns | src/base58.h:137-139 | the checksum is the one sequence of four bytes with that value |
| Base58Check.ChecksumBytes | src/base58.h:137-139 | byte j of the checksum is byte j of the hash in memory |
| Base58Check.EncodeBase58Check | src/base58.h:134-141 | the encoder's output for the bytes and the four bytes that stand for their hash modulo 2^32, least significant first, and exactly when it is their checked encoding |
| Base58Check.DecodeBase58Check | src/base58.h:145-162 | accepted exactly when the string decodes to some bytes and four bytes that stand for their hash, and then with those bytes |
| Base58Check.ParseExact | src/base58.h:206-222 | a string is accepted as some versioned data exactly when its content is the text of that data |
| Base58Check.ParseText | src/base58.h:206-234 | the text of versioned data, with any white space around it, gives back version and data |
| Base58Check.CBase58Data.SetData | src/base58.h:192-203 | version and data are replaced |
| Base58Check.CBase58Data.SetString | src/base58.h:206-222 | the object takes over the data accepted, and is cleared when none is |
| Base58Check.CBase58Data.ToString | src/base58.h:229-234 | the encoder's output for version, data and checksum, and exactly when it is their text |
| Base58Check.SecretExact | src/base58.h:418-434 | exactly the data made from 32 bytes and a flag on this network is valid |
| Base58Check.SecretKept | src/base58.h:401-439 | a secret comes back through text as version 128 or 239, its 32 bytes and a 1 for a compressed key, and is refused on the other network |
| Base58Check.CBitcoinSecret.SetSecret | src/base58.h:401-407 | version, bytes and the trailing 1 of a compressed key |
| Base58Check.CBitcoinSecret.GetSecret | src/base58.h:409-416 | from valid data, the secret and flag it was made from |
| Base58Check.CBitcoinSecret.IsValid | src/base58.h:418-434 | the version of this network and one of the two lengths |
| Base58Check.CBitcoinSecret.SetString | src/base58.h:436-439 | accepted exactly when the string parses to a valid secret; the object keeps what was parsed even when it is not one |
| Base58Check.AddressExact | src/base58.h:281-363 | data yields a destination exactly when it has its 20 bytes and the version 0, 9, 111 or 199 of its kind and network |
| Base58Check.AddressKept | src/base58.h:281-363 | a destination comes back through text on its own network and yields none on the other |
| Base58Check.MainKeyText | src/base58.h:252-275 | the text of a key address of the main network starts with a 1 |
| Base58Check.CBitcoinAddress.Set | src/base58.h:281-294 | a destination is taken over; no destination leaves the object alone |
| Base58Check.CBitcoinAddress.IsValid | src/base58.h:296-326 | valid exactly when there is a destination to return |
| Base58Check.CBitcoinAddress.Get | src/base58.h:345-363 | the destination the data stands for on this network |
| Base58Check.CBitcoinAddress.GetKeyID | src/base58.h:365-378 | a key hash exactly when the destination is one |
| Base58Check.CBitcoinAddress.IsScript | src/base58.h:380-390 | true exactly when the destination is a script |
| Base64.FindMeaning | src/base64.cpp:31-39 | the letters of the alphabet are exactly what the character test accepts, and anything else is found as 255 |
| Base64.FindRuns | src/base64.cpp:31-39 | the alphabet is A to Z, a to z, 0 to 9, + and /, in this order |
| Base64.GroupOctets | src/base64.cpp:51-100 | splitting three bytes and joining the sextets gives the three bytes |
| Base64.RoundTrip | src/base64.cpp:41-123 | every byte string is decoded from its encoding |
| Base64.DecodeExact | src/base64.cpp:84-123 | any string decodes to given bytes exactly when they are as many as its leading letters fill, and the number those spell without its spare bits |
| Base64.EncodedLength | src/base64.cpp:41-82 | the encoding has 4 * ceil(length / 3) characters |
| Base64.PaddingMeaning | src/base64.cpp:41-82 | the characters behind the letters, and only they, are padding |
| Base64.FillerIrrelevant | src/base64.cpp:108-119 | the value 255 that stands for missing letters never reaches an emitted byte |
| Base64.SextetsValue | src/base64.cpp:41-82 | the letters before the padding are the bytes as one number in base 64, followed by the spare bits |
| Base64.Base64Encode | src/base64.cpp:41-82 | the loop over the two buffers computes the encoding |
| Base64.Finish | src/base64.cpp:62-78 | the bytes left over give one letter more than there are bytes, and the padding |
| Base64.Base64Decode | src/base64.cpp:84-123 | the loop computes the decoding of the letters up to the first other character |
| Bloom.InsertedBits | src/bloom.cpp:38-48 | inserting sets the bits the key is hashed to, and no others |
| Bloom.InsertedExactly | src/bloom.cpp:32-48 | a bit, counted from the lowest of its byte, is on afterwards exactly if it was or if one of the seeded hashes gives its number |
| Bloom.ContainsExactly | src/bloom.cpp:64-76 | a key is reported exactly if all its bits are on; the shortcut for the filter that matches everything makes no difference |
| Bloom.SeedsDistinct | src/bloom.cpp:32-36 | the seeds start at the tweak, are 0xFBA4C795 apart modulo 2^32, and differ for all 2^32 numbers |
| Bloom.OutPointBytes | src/bloom.cpp:50-56 | an outpoint is looked up as its hash and its index, least significant byte first |
| Bloom.InsertGrows | src/bloom.cpp:38-48 | inserting clears no bit, and the key is reported from then on |
| Bloom.GrownContains | src/bloom.cpp:64-76 | a key reported by a filter is reported by any with more bits, also when that has become the one that matches everything |
| Bloom.UnmatchedStays | src/bloom.cpp:105-135 | while no output matches the filter as it was, the filter stays as it was |
| Bloom.IrrelevantStays | src/bloom.cpp:97-160 | a transaction that is not relevant changes nothing |
| Bloom.MatchedAdded | src/bloom.cpp:117-132 | the outpoint of a matched output is in the filter after the call, if the flags are 1 modulo 4, or 2 and it pays to public keys |
| Bloom.UpdatedStep | src/bloom.cpp:105-135 | one output is added exactly if it matches the filter that the outputs before it left and the flags, as numbers, ask for it |
| Bloom.UnaskedStays | src/bloom.cpp:117-132 | under flags 0 and 3 modulo 4, and under 2 without a matched output to public keys, the filter stays |
| Bloom.RelevantExactly | src/bloom.cpp:97-160 | a transaction is relevant exactly if its hash, some data it pushes or some outpoint it spends is reported |
| Bloom.RunGrows | src/bloom.cpp:38-160 | over any run of calls the filter only gains bits |
| Bloom.NeverAbsent | src/bloom.cpp:38-76 | no key inserted at any point of a run is reported absent afterwards |
| Bloom.NeverMissed | src/bloom.cpp:38-160 | a transaction that mentions a key inserted at any point of a run is relevant afterwards |
| Bloom.SpenderFound | src/bloom.cpp:105-144 | a transaction that spends an output matched earlier in a run, under flags 1 modulo 4, or 2 for an output to public keys, is relevant |
| Bloom.CBloomFilter.Insert | src/bloom.cpp:38-48 | the loop over the hash functions computes the insertion |
| Bloom.CBloomFilter.ContainsKey | src/bloom.cpp:64-76 | true exactly for the keys the filter reports |
| Bloom.CBloomFilter.MatchScript | src/bloom.cpp:112-134 | true exactly when some non-empty data of the script is reported |
| Bloom.CBloomFilter.IsRelevantAndUpdate | src/bloom.cpp:97-160 | the verdict is relevance to the filter as it was before the call, although the filter changes during it; flags 0 and 3 modulo 4 change nothing, 1 adds every matched output, 2 those to public keys |
| LockedPages.LoopEndsExactly | src/allocators.h:61-64 | the loop over pages ends exactly when the last page of the range is not the last page of the address space |
| LockedPages.HandledExactly | src/allocators.h:61-64 | the loop ends having touched just the pages that a range overlaps exactly when the range ends before the last page |
| LockedPages.TouchedMeaning | src/allocators.h:61-64 | for such a range the pages between the two masked addresses are those that hold one of its bytes |
| LockedPages.UnlockSafe | src/allocators.h:80-91 | unlocking a range that is live never fails the assertion |
| LockedPages.RunTracks | src/allocators.h:48-100 | for every interleaving of locking and unlocking, each count is the number of live ranges on the page |
| LockedPages.LockedWhileLive | src/allocators.h:38-39 | a page is locked exactly while some live range has a byte on it |
| LockedPages.AllUnlocked | src/allocators.h:80-100 | once every live range has been unlocked no page is left |
| LockedPages.LockedPageManager.constructor | src/allocators.h:48-54 | nothing is locked at first |
| LockedPages.LockedPageManager.LockRange | src/allocators.h:57-77 | every touched page counts one more, no other page changes, and the pages locked are those counted |
| LockedPages.LockedPageManager.UnlockRange | src/allocators.h:80-100 | every touched page counts one less, no other page changes, and the pages locked are those counted |
| LockedPages.LockedPageManager.GetLockedPageCount | src/allocators.h:103-107 | the number of pages locked |
| Alerts.ProcessedPeaceful | src/alert.cpp:200-234 | processing any alert leaves a table in which no alert names another, expired or not |
| Alerts.Survives | src/alert.cpp:202-221 | an entry survives a call exactly when the alert does not get to the table, or does not name it and it has not expired |
| Alerts.ProcessedExactly | src/alert.cpp:171-234 | exactly which alerts are in the table after a call, and exactly when the alert is accepted, in terms of the fields of the alerts |
| Alerts.ProcessedInEffect | src/alert.cpp:200-234 | after an alert got to the table everything in it is in effect, and an alert accepted under a new hash is in it |
| Alerts.MaximumClears | src/alert.cpp:185-221 | an alert of the greatest identity leaves no other identity in the table |
| Alerts.RunPeaceful | src/alert.cpp:171-268 | over every run no two alerts stored cancel one another, and one with the greatest identity has the reserved form |
| Alerts.HarmlessKeeps | src/alert.cpp:185-231 | a stored alert of the greatest identity is kept and blocks, unless it is named or expired |
| Alerts.MaximumBlocks | src/alert.cpp:178-231 | once an alert of the greatest identity is stored, no alert with a smaller one is accepted before it expires or some alert names the greatest identity |
| Alerts.AlertTable.CancelPrevious | src/alert.cpp:202-221 | the erasing loop leaves exactly the entries that are neither cancelled nor expired |
| Alerts.AlertTable.FindCanceller | src/alert.cpp:223-232 | the search finds whether some entry cancels the alert |
| Alerts.AlertTable.ProcessAlert | src/alert.cpp:171-268 | on every exit, which alerts are in the table afterwards and whether the alert is accepted, in terms of the fields of the alerts |

## Left out

- Selecting one address to connect to (`Select_`, `GetChance`): floating-point
  odds, and loops that end only with probability 1.
- Locks and threads: every public call is one atomic step.
- Machine widths of ids, counters and 64-bit times of the address manager: they
  are unbounded here. The 32-bit time field of an address is modelled.
- Memory failure and exceptions, also those of the big number library.
- AddrReload.Unserialize: reads only what the writer wrote for the same numbers
  of buckets; foreign or damaged streams and the path that redistributes the new
  table after a change of the bucket count are not part of the model.
- AddrDisk.Serialize: a stream is a sequence of numbers, keys and records; their
  encoding as bytes, and the file around them with its checksum, are not part of
  the model.
- AddrManager.AddrMan.AddOne: adds one address; adding a list is this in a loop.
- Mpi.ToBn: the big number library takes the length of a stream as an `int`; here
  it has no bound of its own, only the four-byte length field has one.
- Comparison and ordering of base58 objects: would only add easy members.
- Base58Check.CBitcoinSecret.GetSecret: requires 32 bytes of data, as the copy in
  the program does without a test.
- `setulong`, `getulong`, `getint`, the operators and the serializer of big
  numbers: thin wrappers around the big number library.
- BigNum.CBigNum.ToString: the base is at least 2 and at most 16, the bases for
  which the program has digits and its loop ends.
- Sizing a Bloom filter from an error rate: floating-point logarithms. Any filter
  with at least one byte is modelled; an empty one divides by zero.
- Parsing scripts and recognizing output types: a script is the list of the data
  it pushes up to where it fails to parse.
- LockedPages.LockedPageManager.LockRange: an `int` count that overflows, and an
  operating system that refuses to lock a page, are not part of the model.
- Relaying and showing alerts, the shell command and the signature check itself.
- Base64.Base64Decode: the four-place buffer holds characters and their values in
  two arrays here, in one in the program.
- The secure allocator around the page locks, which locks what it allocates and
  unlocks the same range when that is released.
- Address, secret and locked-page objects are built by composition here where the
  program uses inheritance and templates.
