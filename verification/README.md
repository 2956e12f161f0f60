# smrt: a verified model

smrt is a self-hosted mirror for Minecraft mods and modpacks. This project models
the parts of it that decide things and proves what they promise:

- **Reading class files** (`ClassGrammar`, `ClassLayout`, `ClassFacts`,
  `ClassMeaning`, `ClassReader`, `Descriptors`, and the writers in `ClassWriter`,
  `ClassSpecs`, `GuardedClasses`). The format is a grammar with a printer and a parser
  proved inverse in both directions, and laid out byte by byte; the cursor methods are
  proved to answer what the grammar says, each fact of a class is said of its pool,
  members and attributes, and what the class builder writes reads back as what was
  asked for. The format is the Java Virtual Machine Specification, SE 8, sections 4.1
  to 4.7, 4.7.16 and 4.7.16.1.
- **Deriving facts from jars and required mods from facts** (`JarDerivation`,
  `JarLaws`, `Sides`, `SidesLaws`, `RequiredMods`, `RequiredLaws`, `ClassifiedPacks`).
  From the classes of a jar to its side and policy, through the registry's text rows,
  to the mods a build locks, and why that never has to refuse.
- **The background harvest** (`Harvest`, `HarvestLaws`). Callers, asking builds, a
  one-permit wake and the worker as one step machine over every interleaving.
- **Editing a pack** (`PackConfigs`, `DepFill`, `DepFillLaws`, `ConfigDiff`,
  `ConfigDiffLaws`, `DiffReading`, `OneEdit`). The dependency fill, the config diff
  and what its rows tell, and that the one never shows in the other.
- **Storing and publishing** (`CommitStore`, `CommitLaws`, `CacheInventory`,
  `CacheLaws`, `Versions`, `Publish`, `PublishLaws`, `Fingerprint`, `FingerprintLaws`,
  `Jobs`, `JobSnapshots`). Crash-safe history, paging, build numbers, serialized
  publishing, the content fingerprint, job logs, eviction and what a restart finds.
- **The status wire format** (`Wire`): varints as unsigned LEB128 over the 32-bit
  pattern, section 7.6 of DWARF Version 5.

`Base`, `Texts`, `Utf8Codec` (RFC 3629, strict and lossy), `Sorting`, `Picking` and
`Manifest` are what these share.

An operation is proved against a function that computes what it should; a module named
for its laws or its meaning then says, of all inputs and without that function's
helpers, what the answer is.

Objects the program updates in place are classes here (`Cur`, `ClassWriter`, `Buffer`,
`Slice`, `LiveConfig`, `CommitDir`, `ManifestDir`, `JobState`, `JobRegistry`,
`SnapshotDir`), `derive_required` works on an array, and each loop of the program is a
loop proved against a function whose properties are then lemmas. Where calls
interleave or a crash may fall between writes, the same operations appear as steps of
a state machine, one atomic access or one write at a time.

## Where the code and its comments differ

- `next_auto_version` is said to give no number out again after its build is deleted.
  It does, exactly when nothing at or above it stays published: `Versions.ReissuedIff`,
  `Versions.DeletedNewestIsReissued`.
- A false `is_unsettled` reads as "settled now". It need not be, since it reads two
  variables one after the other (`Harvest.SettledWithoutASettledInstant`).
  `Harvest.AnswerHoldsOfAnInstantIff` says exactly when it is; what always holds is
  `Harvest.SettledMeansCovered`.
- An empty mods diff needs more than equal rows: which of two rows typed under one
  slug comes first also shows. `ConfigDiffLaws.EmptyModDiffIff` gives the exact
  condition, `ConfigDiffLaws.SwappedSlugsShow` the case.
- Job ids sort by age exactly while milliseconds and counter keep their zero-padded
  widths: `Jobs.IdsSortByAgeIff`. What rests on that order, the job evicted and the
  snapshots kept, is right exactly as long: `Jobs.VictimsAreOldestIff`,
  `JobSnapshots.NewestAreKeptIff`.
- Swapping `latest` is meant to spare readers a link without its target. A deletion,
  which takes no lock and unlinks one file after the other, leaves one when it reaches
  the manifest ahead of the link, or takes it away between a build's save and its
  pointer move; nothing else does: `Publish.LatestAlwaysSoundIff`.
- `HEAD` is written last so that a crash never leaves it naming a commit without its
  snapshot, which holds (`CommitStore.HistoryIsAlwaysSound`). A deletion, which does not
  take the config lock, can leave it so: `CommitStore.HistoryIsSoundIff` says exactly
  when, `CommitStore.BreaksByUnlinking` that nothing else does.
- The fingerprint tells two contents apart and no two orders of one, provided no
  version, loader or mod filename holds a newline and no loader name a tab:
  `Fingerprint.CanonicalIff`. Destinations are checked to be plain paths; a mod's
  filename is only kept from leaving its directory, and one that holds a newline can
  pass for two mods: `Fingerprint.NewlinesCollide`.

Where they agree, with a condition the callers meet: that an id stands for one
commit alone holds exactly for contents without newlines in parent, author,
time and snapshot (`CommitStore.PreimageNamesItsContentIff`). The only callers pass
the previous commit's id, a login and a clock reading (src/http/admin.rs:1769-1776
and 2068-2075), and a snapshot is one line of JSON, so no other content reaches
`make_commit`. The contributors are not part of the id.

## Model

| member | source | states |
|---|---|---|
| ClassReader.Cur.constructor | src/authoring/classfile.rs:183-186 | A cursor starts at the front of the bytes. |
| ClassReader.Cur.U1 | src/authoring/classfile.rs:187-191 | One byte is taken, or nothing moves past the end. |
| ClassReader.Cur.U2 | src/authoring/classfile.rs:192-196 | Two bytes, big-endian; a truncated number is `None` and the cursor stays inside. |
| ClassReader.Cur.U4 | src/authoring/classfile.rs:197-201 | Four bytes, big-endian, likewise. |
| ClassReader.Cur.Bytes | src/authoring/classfile.rs:202-207 | Exactly `n` bytes or none, whatever `n` is. |
| ClassReader.Cur.Skip | src/authoring/classfile.rs:208-215 | Skipping moves exactly as far as reading would. |
| ClassReader.ReadEntry | src/authoring/classfile.rs:236-293 | One pool entry: the slots it fills (two for Long and Double, decoded text for a Utf8), or `None` on an unknown tag or a truncation, agreeing with the format's grammar on every input. |
| ClassReader.ReadPoolLoop | src/authoring/classfile.rs:231-295 | The pool loop: slot 0 and the second half of wide entries unusable, until a 16-bit index, wrapping as in a release build, is no longer below the count. |
| ClassGrammar.ConstLaw | src/authoring/classfile.rs:236-293 | A printed constant of any tag reads back as itself and stops where it ended (JVMS 4.4). |
| ClassGrammar.ConstInverse | src/authoring/classfile.rs:236-293 | Whatever is read as a constant is a well-formed one, and printing it gives the bytes back. |
| ClassGrammar.PoolLaw | src/authoring/classfile.rs:231-295 | A printed pool that fills its count, wide entries included (JVMS 4.4.5), reads back entry for entry before any tail. |
| ClassGrammar.PoolInverse | src/authoring/classfile.rs:231-295 | A pool that is read fills its count and prints back to the bytes read. |
| ClassReader.ReadInterfaces | src/authoring/classfile.rs:307-314 | Interface names in order, entries that name no class dropped. |
| ClassReader.CollectPoolTypes | src/authoring/classfile.rs:320-335 | Every class entry and every name-and-type descriptor of the pool contributes its classes. |
| ClassReader.CollectMemberTypes | src/authoring/classfile.rs:337-359 | Descriptors of fields (or methods) are collected and their attributes skipped whole; a truncated table fails the parse. |
| ClassReader.SkipAttributes | src/authoring/classfile.rs:481-489 | An attribute table is passed over exactly, or the parse fails. |
| ClassReader.ReadClassAttributes | src/authoring/classfile.rs:361-392 | Annotation attributes fold in order: the last `@Mod` sides, the first mod id, remote range and dist, all mixin targets. |
| ClassReader.IsConditional | src/authoring/classfile.rs:427-448 | A class is conditional when the pool holds an optional marker or calls a mod-loaded guard. |
| ClassMeaning.ConditionalIff | src/authoring/classfile.rs:427-448 | A parsed class is conditional if and only if a text of its pool is one of the optional markers, or a reference of its pool has one of the mod-loaded guards as its class and name. |
| ClassReader.ParseClass | src/authoring/classfile.rs:222-414 | On every byte string the parse ends, and answers the facts of the class file the bytes print, or nothing when they print none. |
| ClassReader.ParseBody | src/authoring/classfile.rs:297-414 | The same for everything past the pool. |
| ClassReader.ParseMeaning | src/authoring/classfile.rs:222-414 | The parse answers some facts if and only if the bytes are a printed class file, followed by anything, with exactly these facts. |
| ClassMeaning.NamesAre | src/authoring/classfile.rs:297-306 | The name is what this-class resolves to; a superclass is told exactly when the index is not zero, resolves, and is not Object. |
| ClassMeaning.InterfacesAre | src/authoring/classfile.rs:307-314 | The interfaces are the listed ones that resolve, in the order listed. |
| ClassMeaning.ReferencedIff | src/authoring/classfile.rs:316-359 | A class is referenced if and only if it is not the class itself and stands in a class entry, or in a descriptor that a name-and-type entry, a field or a method gives. |
| ClassMeaning.AttributesRead | src/authoring/classfile.rs:367-392 | Over the attributes the last `@Mod` gives the sides, the first with an id the id, the first with a range the range, the first dist the dist, and every mixin its targets, in order. |
| ClassMeaning.AttributesSpeak | src/authoring/classfile.rs:394-414 | These are the facts of the class: `@Mod` or not, its sides, id, range, dist and targets. |
| ClassMeaning.ScanReads | src/authoring/classfile.rs:551-630 | Within a body the last `@Mod` speaks, the first dist marker that names a side, and every mixin in order. |
| ClassMeaning.ModReads | src/authoring/classfile.rs:551-630 | Of an `@Mod` the last element of each name counts if its constant is of the right kind; an empty text says nothing and an absent flag says no. |
| ClassMeaning.DistReads | src/authoring/classfile.rs:551-630 | Of a dist marker the last enum constant counts, CLIENT and SERVER or DEDICATED_SERVER being the sides. |
| ClassMeaning.MixinNamesIff | src/authoring/classfile.rs:590-612 | A mixin names a class if and only if its `value` holds, under arrays alone, a class constant whose text is L, the class, and a semicolon, or its `targets` a non-empty text that reads as the class with dots as slashes. |
| ClassMeaning.MixinNamesInOrder | src/authoring/classfile.rs:590-612 | In the order of its elements. |
| ClassMeaning.PrefixReads | src/authoring/classfile.rs:551-630 | What of a body was read stands printed at its front, annotation by annotation, and more was read only if the count was not reached and the next is well-formed. |
| ClassGrammar.ClassLaw | src/authoring/classfile.rs:222-414 | Every well-formed class file reads back as itself, whatever follows it. |
| ClassGrammar.ClassInverse | src/authoring/classfile.rs:222-414 | Whatever is read is well-formed and prints back to the bytes: the reader accepts nothing but printed class files. |
| ClassLayout.HeadLayout | src/authoring/classfile.rs:223-231 | By position: the four magic bytes, minor and major version, the pool's count, then the pool. |
| ClassLayout.BodyLayout | src/authoring/classfile.rs:297-314 | Flags, this class, its super class and the interfaces stand where the format has them, then fields, methods and attributes in this order. |
| ClassLayout.ConstLayout | src/authoring/classfile.rs:236-293 | Each constant is the tag of section 4.4 and its numbers, the high byte first, at the offsets the format gives. |
| ClassLayout.SlotsOfBytes | src/authoring/classfile.rs:236-293 | Of whatever is read as a constant, the slots it fills come from the bytes behind its tag: which number is the owner, which the member, which the value; and no other tag is read. |
| ClassLayout.ElemLayout | src/authoring/classfile.rs:691-721 | Each element value is the letter of section 4.7.16.1 and what belongs to it. |
| ClassLayout.CapturedOfBytes | src/authoring/classfile.rs:691-721 | What is captured of an element comes from the bytes behind its letter: the index of a constant or class, the second index of an enum, the count of an array, nothing of a nested annotation. |
| ClassGrammar.AttrsLaw | src/authoring/classfile.rs:367-392 | A printed attribute table reads back before any tail. |
| ClassGrammar.MembersLaw | src/authoring/classfile.rs:337-359 | A printed field or method table reads back before any tail. |
| ClassReader.ReadElementValue | src/authoring/classfile.rs:691-721 | An element value of any nesting is captured and read past exactly; on arbitrary bytes the mutual recursion ends and never leaves the buffer (JVMS 4.7.16.1). |
| ClassReader.ReadAnnotation | src/authoring/classfile.rs:676-689 | The same for an annotation: its type and captured pairs, the cursor exactly behind it. |
| ClassReader.ReadItems | src/authoring/classfile.rs:691-721 | The items of an array value, one after another, or `None` as soon as one is malformed. |
| ClassGrammar.ElemLaw | src/authoring/classfile.rs:691-721 | For every arbitrarily nested element value, reading its encoding followed by any tail gives it back and stops at the tail. |
| ClassGrammar.ElemInverse | src/authoring/classfile.rs:691-721 | Whatever is read as an element value prints back to the bytes that were read. |
| ClassGrammar.AnnotationLaw | src/authoring/classfile.rs:676-689 | The same round trip for annotations (JVMS 4.7.16). |
| ClassGrammar.AnnotationInverse | src/authoring/classfile.rs:676-689 | And its inverse on arbitrary bytes. |
| ClassReader.ScanAnnotations | src/authoring/classfile.rs:551-630 | A body's annotations are scanned in order up to its count or the first malformed one, which keeps what came before. |
| ClassReader.ScanOneLoop | src/authoring/classfile.rs:551-630 | One annotation adds its mod facts, mixin targets or dist by its type, with later pairs replacing earlier ones where the code does. |
| ClassReader.MixinTargetsOf | src/authoring/classfile.rs:551-630 | A mixin's class values and string targets become binary names, in order. |
| Descriptors.ExtractObjectTypes | src/authoring/classfile.rs:509-527 | The descriptor scanner, running over bytes, ends on every string, cuts only between characters and adds exactly what a scan of the characters finds. |
| Descriptors.ScanEncoded | src/authoring/classfile.rs:509-527 | For every string, descriptor or not, the bytes cut out of its encoding are the encodings of what is cut out of the string. |
| Descriptors.ScanFindsClasses | src/authoring/classfile.rs:509-527 | On every well-formed field or method descriptor the scan finds exactly the class names of its grammar derivation (JVMS 4.3.2, 4.3.3). |
| Descriptors.PushArray | src/authoring/classfile.rs:495-505 | An array class entry contributes the class at its bottom, a primitive array nothing, and a class named by one byte is lost. |
| Descriptors.PushPlain | src/authoring/classfile.rs:495-505 | A plain class entry contributes itself exactly when it is longer than one byte. |
| ClassWriter.ClassWriter.Add | src/authoring/classfile.rs:741-745 | An entry gets the next index and the pool holds it after what was there. |
| ClassWriter.ClassWriter.Utf8 | src/authoring/classfile.rs:746-751 | A text entry resolves to its text. |
| ClassWriter.ClassWriter.Class | src/authoring/classfile.rs:752-757 | A class entry resolves to its name and adds exactly that type to the pool. |
| ClassWriter.ClassWriter.Integer | src/authoring/classfile.rs:758-764 | An integer entry holds the value, negatives in two's complement. |
| ClassWriter.ClassWriter.Long | src/authoring/classfile.rs:765-772 | A long takes two slots and the index of the first. |
| ClassWriter.ClassWriter.NameAndType | src/authoring/classfile.rs:773-780 | A name-and-type entry refers to the two texts written before it. |
| ClassWriter.ClassWriter.Methodref | src/authoring/classfile.rs:781-790 | A method reference resolves to the owner and the method it was given. |
| GuardedClasses.BuildCalling | src/authoring/classfile.rs:781-829 | A class assembled around one method reference parses with the reference's owner and the classes of its descriptor among what it refers to, and as conditional if and only if owner and method are a mod-loaded guard or one of its texts is a marker. |
| ClassWriter.ClassWriter.BuildWith | src/authoring/classfile.rs:802-829 | The assembled bytes parse to exactly the class assembled, with nothing left over, for any pool, long entries included. |
| ClassSpecs.AnnotationBytes | src/authoring/classfile.rs:832-842 | The annotation builder prints the annotation of its pairs. |
| ClassSpecs.ArrayVal | src/authoring/classfile.rs:855-863 | The array builder prints the array of its items. |
| ClassSpecs.Annotations | src/authoring/classfile.rs:909-990 | The annotations of a spec scan back to exactly its mod, mixin and dist parts. |
| ClassSpecs.BuildClassSpec | src/authoring/classfile.rs:909-990 | For every spec within the format's limits, reading what was built gives back its name, superclass (none for Object), interfaces in order, references, conditional flag, `@Mod` values, dist and mixin targets. |
| ClassSpecs.FactsOfSpec | src/authoring/classfile.rs:909-990 | The facts of a class assembled from a spec are the spec's own. |
| Wire.VarintIsVarint | src/authoring/mcping.rs:149-163 | A written varint is one to five bytes, its groups spelling the 32-bit pattern (unsigned LEB128, section 7.6 of DWARF Version 5). |
| Wire.VarintBytes | src/authoring/mcping.rs:149-163 | The i-th byte carries the i-th seven bits from the bottom, and every byte but the last has its high bit set. |
| Wire.VarintRoundTrip | src/authoring/mcping.rs:149-189 | Every i32, negative ones included, reads back before any tail, in one to five bytes, five for negatives. |
| Wire.WriterIsShortest | src/authoring/mcping.rs:149-163 | No other varint the reader takes for the value is shorter. |
| Wire.Buffer.WriteVarint | src/authoring/mcping.rs:149-163 | The shifting loop appends exactly the varint. |
| Wire.Buffer.WriteString | src/authoring/mcping.rs:165-168 | A string is the number of its bytes as a varint, then its bytes. |
| Wire.Buffer.WritePacket | src/authoring/mcping.rs:170-176 | A packet is its length, then its body. |
| Wire.Slice.ReadVarint | src/authoring/mcping.rs:178-189 | The advancing reader decodes the varint at the front and leaves what follows, or says why not: bytes ran out, or a sixth would be needed. |
| Wire.DecodeVarintIff | src/authoring/mcping.rs:178-189 | A number is read if and only if the first bytes are a varint whose low 32 bits are it, as a signed number; it ran off exactly when fewer than five bytes are there and all promise another, and is too long when the first five do. |
| Wire.Slice.ReadString | src/authoring/mcping.rs:191-200 | A string of the announced length is decoded off the front, or the length overruns or the bytes are not UTF-8. |
| Wire.DecodeStringIff | src/authoring/mcping.rs:191-200 | A string is read if and only if its length in bytes and then its own encoding stand at the front: no other spelling of it is accepted. |
| Wire.StringRefusedIff | src/authoring/mcping.rs:191-200 | Why a string is refused, each reason if and only if: its length is no varint; negative or past what follows; or what it frames is the encoding of no string. |
| Utf8Codec.DecodeIff | src/authoring/mcping.rs:198 | Bytes decode to a string if and only if they are its UTF-8 (RFC 3629): overlong forms, surrogates and numbers out of range are refused. |
| Utf8Codec.LossyDecodes | src/authoring/classfile.rs:241 | The lossy decoder changes nothing that the strict one accepts. |
| Utf8Codec.BadIsMaximal | src/authoring/classfile.rs:241 | A replacement character stands for one byte, or for bytes some character begins with; with one byte more no character begins so. |
| Wire.Slice.ReadPacket | src/authoring/mcping.rs:202-227 | The byte-at-a-time length reader agrees with the buffer reader and takes exactly one body; lengths out of range are refused. |
| Wire.SameOnPrefix | src/authoring/mcping.rs:202-227 | Whether a length is read byte by byte or from a buffer does not matter. |
| Wire.StringRoundTrip | src/authoring/mcping.rs:165-200 | Any string reads back before any tail if and only if its length in bytes fits an i32. |
| Wire.PacketRoundTrip | src/authoring/mcping.rs:170-227 | A framed packet reads back if and only if its body is within the response limit. |
| Wire.PacketIff | src/authoring/mcping.rs:202-227 | A packet is read if and only if its length is within the limit and what follows, and the body is that much of it; the other answers say which failed. |
| Wire.FramesRoundTrip | src/authoring/mcping.rs:170-227 | A concatenation of framed packets reads back as the same bodies. |
| Harvest.StepKeepsInv | src/authoring/harvest_sched.rs:79-201 | Every atomic step of callers, queries and worker keeps: nothing stranded, every request accounted for, every query's findings sound. |
| Harvest.NeverStranded | src/authoring/harvest_sched.rs:79-201 | Over every interleaving a set `dirty` has a stored permit, a call in flight or a waking worker; a forced call likewise; and a request no run has covered or is covering is still dirty. |
| Harvest.SettledMeansCovered | src/authoring/harvest_sched.rs:102-124 | A settled answer means every poke or force that had returned before the query began is covered by a harvest that has ended. |
| HarvestLaws.SettledMeansHarvested | src/authoring/harvest_sched.rs:102-124 | Said of the run itself: each call that had returned when the query began stored its request at some step, a later step cleared `dirty`, and a later one ended that harvest. |
| HarvestLaws.WhereCallsMove | src/authoring/harvest_sched.rs:79-201 | A call becomes pending by its own store only, leaves it by the clearing of `dirty` only, and is covered by the end of a harvest only. |
| HarvestLaws.WhereQueriesMove | src/authoring/harvest_sched.rs:102-124 | Only its own read moves a query: to settled exactly when the second read finds no harvest running, to unsettled when either finds something; only an unsettled one asks again or gives up. |
| HarvestLaws.AnswersAreFinal | src/authoring/harvest_sched.rs:102-124 | Over every run what was answered stays answered. |
| HarvestLaws.NobodyWaits | src/authoring/harvest_sched.rs:79-124 | Whoever calls or asks can always take the next step. |
| HarvestLaws.OnlyTheWindowStartsOne | src/authoring/harvest_sched.rs:126-201 | Without a forced call about, only the end of the debounce window starts a harvest. |
| HarvestLaws.BurstIsOneRun | src/authoring/harvest_sched.rs:126-201 | However many pokes come while the window is open, one harvest runs when it closes, and it covers them all. |
| HarvestLaws.ForcedNeverWaits | src/authoring/harvest_sched.rs:88-201 | Over every run, from a forced call's flag until a harvest starts, a move other than the end of the window is open while anything is pending. |
| HarvestLaws.ForceRunsAtOnce | src/authoring/harvest_sched.rs:88-201 | Forced while idle, the harvest runs at once and the window never opens. |
| Harvest.SettledWithoutASettledInstant | src/authoring/harvest_sched.rs:102-107 | The stronger reading fails: a run in which a query answers settled though at no instant during it was the state settled. |
| Harvest.AnswerHoldsOfAnInstantIff | src/authoring/harvest_sched.rs:102-107 | On every run a settled answer holds of some instant between its two reads if and only if no harvest was running at the first, or one ended between them with no call's store waiting to be cleared. |
| Harvest.NoStoreMeansSettled | src/authoring/harvest_sched.rs:102-107 | In particular, when no call's store falls between the reads the instant of the second is settled. |
| Harvest.HarvestUnderWay | src/authoring/harvest_sched.rs:79-201 | One poke, taken up by the worker, while a build begins to ask. |
| Harvest.AskedAndAnswered | src/authoring/harvest_sched.rs:102-107 | From there a poke and the harvest's end fall between the query's two reads. |
| Harvest.SomethingCanMove | src/authoring/harvest_sched.rs:126-201 | While a request is pending some call or worker step is enabled; a forced one needs no debounce timeout. |
| Harvest.MovesBringItNearer | src/authoring/harvest_sched.rs:126-201 | Every such step lets a run observe the request or lowers the rank. |
| Harvest.EventuallyObserved | src/authoring/harvest_sched.rs:126-201 | With no further pokes the worker clears the request within the rank, however the steps are chosen. |
| Sides.SideFromModrinthEnv | src/domain/side.rs:110-127 | Must-match only from required on both sides, a single side only when the other is unsupported, unknown flags decide nothing. |
| SidesLaws.ModrinthEnvIff | src/domain/side.rs:110-127 | All combinations: both sides required is (Both, MustMatch); both required or optional otherwise (Both, Tolerant); one side with the other unsupported that side, tolerant; anything else nothing. |
| Sides.ClassifiedConsistently | src/registry/classify.rs:102-184 | No classification pairs a client side with a must-match policy, and only a stored low-confidence client verdict is soft. |
| SidesLaws.OneSourceDecides | src/registry/classify.rs:102-184 | Kind of the jar, flags of the project, scan, nothing: which decides, and that only the deciding one gives side, policy and confidence. |
| Sides.AuthoredRowConsistent | src/registry/authored.rs:72-136 | An accepted hand-made classification is never client and must-match, and never low confidence. |
| SidesLaws.AuthoredRowIff | src/registry/authored.rs:72-136 | Which rows an operator may assert, and that an accepted one is stored as asserted. |
| Sides.HarvestedVerdictReadsBack | src/registry/classify.rs:107-184 | A scanned mod's side and policy survive being stored as text and classified. |
| JarDerivation.PrefixStandsOverItsClass | src/authoring/bytecode.rs:781-794 | A class has a prefix exactly when it has a package; the class stands under it and it is one to three segments long. |
| JarLaws.PrefixOfPath | src/authoring/bytecode.rs:781-794 | The prefix of a class below any package path is its first three segments below a broad root, else its first two, fewer when the package has fewer. |
| JarLaws.IntegrationIff | src/authoring/bytecode.rs:420-437 | A class is an integration class exactly when some segment of its package is one of the words. |
| JarDerivation.Tally | src/authoring/bytecode.rs:569-607 | One pass counts every kind of evidence exactly. |
| JarDerivation.Classify | src/authoring/bytecode.rs:569-744 | The priority cascade decides kind, side, confidence and policy as each axis is defined on its own. |
| JarLaws.NotAMod | src/authoring/bytecode.rs:609-626 | A jar without an identity has no side, confidence or policy; its kind is coremod exactly when something loads as one, else library. |
| JarLaws.FlagDecides | src/authoring/bytecode.rs:628-652 | In every jar with `@Mod` classes: a client flag on some and a server flag on none is (Client, High, Tolerant), the reverse (Server, High, Tolerant), whatever else the jar holds. |
| JarLaws.FabricDecides | src/authoring/bytecode.rs:653-675 | Else one side declared to Fabric is that side, High, Tolerant. |
| JarLaws.ContentDecides | src/authoring/bytecode.rs:677-697 | Else content puts it on both sides, High, and MustMatch exactly when nothing waives the server. |
| JarLaws.WaiverDecides | src/authoring/bytecode.rs:677-709 | Else a waiver alone is (Both, High, Tolerant). |
| JarLaws.EntrypointDecides | src/authoring/bytecode.rs:711-727 | Else a client entrypoint without a main one is (Client, High, Tolerant). |
| JarLaws.SurfaceDecides | src/authoring/bytecode.rs:728-737 | Else the look of the client is (Client, Low, Tolerant): at least half of what touches Minecraft touches its client and no class is marked for servers. |
| JarLaws.NothingDecides | src/authoring/bytecode.rs:739-745 | What is left has no policy, and both sides exactly when declared on both. |
| JarLaws.EvidenceCounts | src/authoring/bytecode.rs:569-607 | Every number of the evidence is the number of positions of the class list that show the signal; a sided proxy is seen if any class has one. |
| JarDerivation.NeverClientMustMatch | src/authoring/bytecode.rs:569-744 | No path yields client with must-match; must-match is a confident both-sides verdict; low confidence is a client verdict without content; what is not a mod has no verdict. |
| JarDerivation.PrefixesOf | src/authoring/bytecode.rs:494-502 | The distinct indexed prefixes a class references. |
| JarDerivation.GatherReferences | src/authoring/bytecode.rs:490-511 | All referenced prefixes, and those some unexcused class references. |
| JarDerivation.GatherDefined | src/authoring/bytecode.rs:443-450 | The prefixes the jar's classes define. |
| JarDerivation.GatherRuntimes | src/authoring/bytecode.rs:526-539 | Runtime languages referenced and not provided. |
| JarDerivation.Aggregate | src/authoring/bytecode.rs:442-555 | The whole fold yields the derivation: owned, hard, optional, runtimes, verdict, first mod id, evidence. |
| JarLaws.OwnedIff | src/authoring/bytecode.rs:443-477 | A prefix is owned if and only if some class of the jar that is no platform class stands under it, but for an `api` package shipped without anything else of its root. |
| JarLaws.HardIff | src/authoring/bytecode.rs:484-524 | A prefix is hard if and only if no class of the jar stands under it and some class refers to it that is neither conditional nor, integration classes being the fewer, one of these. |
| JarLaws.OptionalIff | src/authoring/bytecode.rs:484-524 | It is optional if and only if no class of the jar stands under it, some class refers to it and every one that does is so excused. |
| JarLaws.RuntimeNeededIff | src/authoring/bytecode.rs:526-539 | A runtime language is needed if and only if some class refers to its packages and the jar does not provide it. |
| JarLaws.ModIdIsTheFirst | src/authoring/bytecode.rs:552 | The mod id is that of the first class, in order, that has one. |
| JarDerivation.EveryPrefixHasOnePlace | src/authoring/bytecode.rs:442-525 | Owned, bundled, hard and optional are disjoint and together exactly the non-platform prefixes defined or referenced. |
| JarDerivation.HardMeansUnexcused | src/authoring/bytecode.rs:484-524 | A foreign prefix is hard exactly when some class references it unexcused, optional exactly when all that do are excused. |
| JarDerivation.OrderDoesNotMatter | src/authoring/bytecode.rs:442-606 | Any permutation of the classes yields the same facts but for the mod id. |
| JarDerivation.ModIdFollowsOrder | src/authoring/bytecode.rs:552 | The mod id does depend on order: two `@Mod` classes swapped name the jar differently. |
| JarDerivation.ModIdIndependentIff | src/authoring/bytecode.rs:552 | It is the same in every order if and only if all declared ids agree. |
| RequiredMods.DeriveRequired | src/authoring/build.rs:182-332 | On success every entry is marked by whether it is locked: must-match default mods and all that is reached over lockable hard edges from the default install, less server-side and non-mod jars; refused exactly when a client mod would be locked without a soft verdict, naming the first, nothing marked. |
| RequiredLaws.RequiredIff | src/authoring/build.rs:182-332 | An entry ends up required if and only if every set of entries that holds the must-match default mods and is closed under hard requirements out of itself and the default install, as far as these may be locked, holds it, and it is neither server-side nor a non-mod jar. |
| RequiredLaws.BlocksIff | src/authoring/build.rs:281-296 | The derivation is refused over an entry if and only if it must be had, runs on clients and has no weak verdict of the scan to excuse it. |
| RequiredLaws.DerivedPresence | src/authoring/build.rs:299-330 | Each presence if and only if: Coremod for a non-mod jar; OptionalServer on the server side; Required when required; OptionalClient and OptionalBoth by side when not; none without a side, whatever stood there before. |
| RequiredLaws.DerivedKeepsTheRest | src/authoring/build.rs:299-330 | Everything else of an entry stays, but that a server-side mod leaves the default install; a display made up for a presence is otherwise the default one. |
| RequiredMods.WalkRequired | src/authoring/build.rs:240-262 | The worklist ends on cyclic graphs holding exactly the seeds and what a non-empty way from a default-enabled mod reaches. |
| RequiredMods.SeedRequired | src/authoring/build.rs:240-251 | The seeds are the default-enabled must-match mods. |
| RequiredMods.QueueDefaults | src/authoring/build.rs:252-257 | The queue starts with every hard dependency of the default install and nothing unreached. |
| RequiredMods.BuildIndex | src/authoring/build.rs:186-190 | The index names the last entry of each filename. |
| RequiredMods.OptOutServers | src/authoring/build.rs:202-206 | Exactly the mods classified server side are taken out of the default install. |
| RequiredMods.DropUnlockable | src/authoring/build.rs:264-297 | Candidates that may not be locked are dropped; the first client mod nothing excuses stops the derivation. |
| RequiredMods.MarkEntries | src/authoring/build.rs:299-330 | Every entry is marked by its own outcome, nothing else moves. |
| RequiredMods.ClosedHoldsReached | src/authoring/build.rs:252-262 | Any set closed under edges out of the default install holds everything reached: the walk finds the least one. |
| RequiredMods.DeriveIdempotent | src/authoring/build.rs:182-332 | Deriving again changes nothing. |
| RequiredMods.DerivedEntriesAgree | src/authoring/build.rs:299-330 | Presence is Required exactly when `required`; server-side mods are neither required nor default; a non-mod jar reads Coremod; edges stay. |
| RequiredMods.RequiredBringsItsDependencies | src/authoring/build.rs:163-181 | A required or default mod never lacks a lockable hard dependency that is not server-side or a non-mod jar. |
| RequiredMods.ConsistentClassesNeverRefuse | src/authoring/build.rs:274-296 | Without a client and must-match classification nothing is refused, and every locked client mod is soft. |
| RequiredMods.InconsistentClassRefuses | src/authoring/build.rs:281-296 | A default client must-match mod alone in a pack is refused exactly when its verdict is not soft. |
| ClassifiedPacks.ClassifiedPackIsNeverRefused | src/authoring/build.rs:216-297 | A pack classified through the registry, from scanned jars, hand-made rows and Modrinth flags, never meets the error. |
| ClassifiedPacks.SolidClientIsNeverLocked | src/authoring/build.rs:208-226 | A client side declared by Modrinth or of high confidence is never locked, whatever depends on the mod; it reads optional. |
| ClassifiedPacks.ClientOnlyJarIsNeverLocked | src/authoring/bytecode.rs:627-639 | A jar some `@Mod` class of which says client side only, and none server side only, is never required and reads OptionalClient, whatever depends on it. |
| ClassifiedPacks.ServerOnlyJarIsOptedOut | src/authoring/bytecode.rs:640-648 | One that says server side only leaves the default install and reads OptionalServer. |
| ClassifiedPacks.ContentJarIsLocked | src/authoring/bytecode.rs:669-690 | A default mod that registers content, declares no single side and waives nothing is required. |
| PackConfigs.DuplicateDeclaration | src/domain/pack.rs:329-364 | A config is accepted exactly when no artifact, filename or destination repeats; otherwise the first row to repeat one is named, by its artifact before its filename, mods before assets. |
| PackConfigs.RevisionCovers | src/domain/pack.rs:283-291 | Two configs have one revision, before hashing, if and only if they agree in everything a person authors, whoever owns them and whatever was pulled, published or forked. |
| DepFill.SourceIdentitySays | src/authoring/depfill.rs:320-326 | Source identities agree exactly for the same project, jar or path. |
| DepFill.NamesSay | src/authoring/depfill.rs:228-243 | One set of strings holds identities and filenames without confusing them. |
| DepFill.LiveConfig.MergePulled | src/authoring/depfill.rs:228-243 | The incoming config gains, in order, exactly the saved pulled rows it does not carry by artifact or filename. |
| DepFillLaws.MissedPicks | src/authoring/depfill.rs:228-243 | The rows gained are exactly the saved pulled ones that no incoming row stands for by artifact or by filename, in the order saved. |
| DepFill.LiveConfig.ApplyRequires | src/authoring/depfill.rs:568-598 | Every row is rewritten to its edges of the plan. |
| DepFill.LinkedMirrorsThePlan | src/authoring/depfill.rs:568-598 | A row's hard targets are exactly the plan's, each once and in order, and nothing else on it moves; no display is made up to hold an empty list. |
| DepFillLaws.EdgesAreHard | src/authoring/depfill.rs:568-598 | Every edge written is hard, to any version, and in the plan. |
| DepFill.HardEdges | src/authoring/depfill.rs:334-351 | The edge map answers with the targets of the last row of each filename. |
| DepFill.WalkEdges | src/authoring/depfill.rs:352-365 | The worklist ends on cycles with exactly the filenames reachable from a curator's row. |
| DepFill.LiveConfig.PruneOrphanedPulled | src/authoring/depfill.rs:333-376 | The rows kept are those that survive, in order. |
| DepFill.PrunedKeepsExactly | src/authoring/depfill.rs:333-376 | Every curator row stays, and of the pulled rows exactly those a curator row reaches. |
| DepFillLaws.PrunedPicks | src/authoring/depfill.rs:333-376 | The kept rows are exactly these, in the order they stood. |
| DepFillLaws.ReachableIff | src/authoring/depfill.rs:334-365 | Reached is what every set of filenames holds that has the curator's rows and is closed under hard requirements. |
| DepFill.PruneIdempotent | src/authoring/depfill.rs:333-376 | Pruning again drops nothing, whatever cycles the edges form. |
| DepFill.LiveConfig.FillPass | src/authoring/depfill.rs:47-72 | A pass meets every target of the plan in turn: what the target stands for, asked with the rows there are by then, is the next row appended, or is carried already, or is nothing; nothing else is appended. |
| DepFill.NoTargetSkipped | src/authoring/depfill.rs:47-72 | For every target of a pass: what it stands for at its turn is carried by the rows in the end. |
| DepFill.LiveConfig.FillPasses | src/authoring/depfill.rs:36-76 | Each pass is such a one over the plan of the rows it began with; they go on until one adds nothing, at most eight; only a registry error stops them sooner. |
| DepFill.NothingLeftOver | src/authoring/depfill.rs:36-76 | After a pass that added nothing no target of its plan stands for a row that is not declared. |
| DepFill.LiveConfig.FillDependencies | src/authoring/depfill.rs:28-87 | Such passes, then the edges of the plan of the rows they left, then the orphans pruned; the number answered is that of the rows appended; an error leaves the passes made. |
| DepFill.FillKeepsUnique | src/authoring/depfill.rs:28-87 | A config without duplicates has none after the fill. |
| DepFill.MergeKeepsUnique | src/authoring/depfill.rs:228-243 | Nor after the merge. |
| DepFill.MergedRowsStayWhileReached | src/authoring/depfill.rs:221-243 | After merge and prune a saved pulled row is carried, or present exactly when still reached. |
| DepFill.StaleSaveLosesNothing | src/authoring/depfill.rs:221-243 | Saving a config without its pulled rows loses none of them. |
| ConfigDiff.KeyMods | src/authoring/configdiff.rs:478-498 | Authored mods are keyed by identity, a taken identity falling back to the filename, pulled rows left out. |
| DiffReading.IdentityReads | src/authoring/configdiff.rs:478-498 | A mod goes by its project when pinned on Modrinth, else by its trimmed slug when that has more than blanks, else by its filename. |
| ConfigDiff.KeyAssets | src/authoring/configdiff.rs:381-384 | Assets are keyed by destination. |
| ConfigDiff.MatchRows | src/authoring/configdiff.rs:269-274 | Rows present in both are compared in key order. |
| ConfigDiff.PairRows | src/authoring/configdiff.rs:281-307 | Each departure takes the first free arrival of its pin, or is a removal. |
| ConfigDiff.DiffRows | src/authoring/configdiff.rs:266-324 | The rows of one group: matches, departures, arrivals. |
| ConfigDiff.DiffConfigs | src/authoring/configdiff.rs:134-139 | Pack fields, then mods, then assets, each sorted; what the rows tell is said below. |
| DiffReading.ModChangesIff | src/authoring/configdiff.rs:326-378 | A change row of the mods is there if and only if two authored mods were joined and a part differs, and it tells that part from the old mod's value to the new one's: pin (the projects where the pins agree), filename, default as on and off, slug, display. |
| DiffReading.AssetChangesIff | src/authoring/configdiff.rs:432-473 | The same of the assets, with destination and required. |
| DiffReading.RemovalsIff | src/authoring/configdiff.rs:296-307 | A removal is there exactly for an old row nothing was joined to, with the pin it had. |
| DiffReading.AdditionsIff | src/authoring/configdiff.rs:309-322 | An addition exactly for a new row nothing was joined to, with the pin it has. |
| DiffReading.PairingIsFirstFit | src/authoring/configdiff.rs:281-295 | Rows are joined by key, and of those left each departure, in key order, to the first arrival of its pin that none before it took. |
| DiffReading.PackRowsAre | src/authoring/configdiff.rs:141-264 | Of the pack's own fields one row for each that differs, in this order, from its old text to its new. |
| DiffReading.SortedRowsAre | src/authoring/configdiff.rs:266-324 | Nothing else stands in a group, nothing is lost, and it is ordered by caption. |
| DiffReading.DiffStands | src/authoring/configdiff.rs:134-139 | Every row of the diff is of one of the three groups, pack before mods before assets. |
| OneEdit.RepinReads | src/authoring/configdiff.rs:331-346 | In any config: pinning one mod to another version of its project is one row, from the version it had to the one it has. |
| OneEdit.SwitchReads | src/authoring/configdiff.rs:354-362 | Switching one off in the default install is one row, from on to off. |
| OneEdit.AdditionReads | src/authoring/configdiff.rs:296-322 | Declaring one more mod is one addition, taking it away one removal. |
| OneEdit.EditReads | src/authoring/configdiff.rs:269-274 | Any edit of one mod under its name and identity shows as that mod's own changes and nothing else. |
| ConfigDiffLaws.FillIsInvisible | src/authoring/configdiff.rs:18-24 | For all configs, diffs against a config read the same after the fill appended, linked and pruned, slug collisions included. |
| ConfigDiffLaws.MergeIsInvisible | src/authoring/depfill.rs:228-243 | Nor does the sticky merge show in any diff. |
| ConfigDiffLaws.EveryRowHasItsKey | src/authoring/configdiff.rs:478-498 | With unique filenames every authored row keeps a key of its own: its identity if it holds it first, else its filename. |
| ConfigDiffLaws.PairingIsInjective | src/authoring/configdiff.rs:281-295 | Pairs join a departure to an arrival of the same pin, no arrival twice. |
| ConfigDiffLaws.PairingIsMaximal | src/authoring/configdiff.rs:281-295 | No departure and arrival pointing at one artifact stay unpaired. |
| ConfigDiffLaws.LeftoversPointApart | src/authoring/configdiff.rs:276-322 | No removal and addition reported name the same artifact. |
| ConfigDiffLaws.PairedRowsShow | src/authoring/configdiff.rs:291-295 | Every paired row yields at least one change. |
| ConfigDiffLaws.CountsAddUp | src/authoring/configdiff.rs:266-324 | Additions less removals is the change in keyed rows. |
| ConfigDiffLaws.ModCountsAddUp | src/authoring/configdiff.rs:266-324 | With unique filenames, the change in authored rows. |
| ConfigDiffLaws.EmptyModDiffIff | src/authoring/configdiff.rs:266-378 | With unique filenames the mods diff is empty if and only if the authored mods agree filename by filename on pin, project, default, slug and authored display, and every shared identity has the same first holder. |
| ConfigDiffLaws.SwappedSlugsShow | src/authoring/configdiff.rs:480-495 | Agreement alone is not enough: swapping two rows of one slug is reported as a change. |
| ConfigDiffLaws.AcceptedConfigsHaveUniqueNames | src/authoring/configdiff.rs:484-488 | The duplicate check provides the unique filenames. |
| ConfigDiffLaws.EmptyAssetDiffIff | src/authoring/configdiff.rs:380-473 | The assets diff is empty exactly when the same destinations hold rows that differ in nothing. |
| ConfigDiffLaws.EqualRevisionsDiffEmpty | src/authoring/configdiff.rs:25-30 | Equal revisions have an empty diff. |
| ConfigDiffLaws.RevisionMovesWithoutADiff | src/authoring/configdiff.rs:25-30 | The converse fails: an edge the fill writes moves the revision and shows in no diff. |
| ConfigDiffLaws.EmptyDiffIff | src/authoring/configdiff.rs:134-139 | With unique filenames the whole diff is empty if and only if the pack's own fields read the same, the authored mods agree with the same first holders, and the assets differ in nothing. |
| CommitStore.MakeCommit | src/authoring/commits.rs:108-147 | The id is the hash of parent, author, time, message and snapshot joined by newlines, built field by field. |
| CommitLaws.MadeIff | src/authoring/commits.rs:108-131 | A commit is one made of its content if and only if its id is forty hexadecimal digits and the hash of parent, author, time, message and snapshot, in this order, and no field but the message can hold a newline. |
| CommitStore.PreimageIsInjective | src/authoring/commits.rs:119-131 | Two contents without newlines in parent, author, time and snapshot have one preimage only if they are equal, any message allowed. |
| CommitStore.PreimageNamesItsContentIff | src/authoring/commits.rs:119-131 | The preimage names its content among such contents if and only if the content is one. |
| CommitStore.ShiftedFieldsCollide | src/authoring/commits.rs:119-131 | Were a caller to pass an author with a newline, it would share an id with another commit; none of the program's does. |
| CommitStore.CommitDir.SaveCommit | src/storage.rs:395-427 | Snapshot, metadata, `HEAD`, pending, in that order, up to the crash; a malformed id is refused. |
| CommitLaws.SaveLeaves | src/storage.rs:404-427 | File by file: the snapshot is there from the first write on, the metadata from the second, `HEAD` moves with the third, the pending set goes with the fourth, and every other file is as it was. |
| CommitLaws.SavedCommitIsHead | src/storage.rs:395-427 | A finished save of a commit is `HEAD`, and loads. |
| CommitStore.CommitDir.CommitLog | src/storage.rs:484-509 | The log walks parents from `HEAD` or after the cursor, at most the limit, and stops where one does not load. |
| CommitLaws.LogIsTheChain | src/storage.rs:484-509 | The log of a sound history starts at `HEAD`, each next commit is the parent of the one before, and it is shorter than its limit only when it ends at a first commit. |
| CommitLaws.LogAfter | src/storage.rs:484-509 | A second page starts at the parent of its cursor; a cursor that does not load is an empty page. |
| CommitLaws.LoadIff | src/storage.rs:441-453 | An id loads as a commit if and only if it is forty hexadecimal digits and has that metadata. |
| CommitStore.SameIdSameContent | src/authoring/commits.rs:23-27 | A commit made again is the stored one, in all its id covers. |
| CommitStore.SaveKeepsSound | src/storage.rs:388-427 | However many writes land, every stored commit keeps snapshot, metadata and chain. |
| CommitStore.SaveInWrites | src/storage.rs:404-427 | Write by write a save does what it does in one call. |
| CommitLaws.AdmitsIff | src/storage.rs:388-427 | Which events a store admits: a save begins when none is under way, writes or is cut short while one is, and a deletion unlinks what is there. |
| CommitLaws.EventLeaves | src/storage.rs:388-427 | What each leaves: an unlinking one file less, a beginning or a crash every file as it was. |
| CommitStore.StepKeepsSoundIff | src/storage.rs:388-427 | A write, a crash or a file unlinked leaves the store sound if and only if it is no write for which snapshot, parent or metadata are missing and unlinks nothing `HEAD` or a stored commit refers to. |
| CommitStore.HistoryIsSoundIff | src/storage.rs:388-427 | Over every interleaving of saves write by write, crashes and files unlinked by a deletion, every state is sound if and only if no step is such a one. |
| CommitStore.BreaksByUnlinking | src/storage.rs:388-427 | The first such step is an unlinking or comes after one within the same save: saves and crashes alone never are. |
| CommitStore.HistoryIsAlwaysSound | src/storage.rs:388-427 | So without a deletion every state is sound, whatever the crashes between writes. |
| CommitStore.WalkReachesTheRoot | src/storage.rs:498-507 | From a stored commit the walk goes on, each step to one stored earlier, to a first commit. |
| CommitStore.HeadHasItsWholeChain | src/storage.rs:372-378 | `HEAD` and all its ancestors have metadata and snapshot, and the chain is acyclic and complete. |
| CommitStore.PagesJoin | src/storage.rs:472-509 | A page of n and the page of m after its last id are the page of n+m. |
| CommitStore.PagesJoinAcrossCommits | src/storage.rs:472-509 | Also when any number of commits land, or land partly, between the two: the same ids, the same commits if none is made again. |
| CacheInventory.ScanFolder | src/storage.rs:1017-1033 | A directory gives exactly its jar hashes past the cursor. |
| CacheInventory.ShardOrder | src/storage.rs:1512-1517 | Directory order is hash order. |
| CacheInventory.SkippedIsEmpty | src/storage.rs:1009-1016 | A directory sorting before the cursor's shard holds nothing past it. |
| CacheInventory.CacheInventoryAfter | src/storage.rs:990-1042 | Over a shard-correct cache the page is the first `take` of all hashes past the cursor in order, with their sizes. |
| CacheLaws.PageReads | src/storage.rs:990-1042 | A page lists jars of the cache past the cursor with their sizes, ascending and none twice; it misses one past the cursor only when it is full, and then only one behind its last. |
| CacheInventory.NextCursor | src/storage.rs:982-1042 | Past the last hash of a page stands exactly what the page left. |
| CacheInventory.PagingVisitsAll | src/storage.rs:982-1042 | Repeated paging, at any page size, visits every hash once, in order. |
| Versions.NextCounterIsLeastAbove | src/authoring/build.rs:415-425 | The next counter is the least above every published counter of the base. |
| Versions.CounterOfRender | src/authoring/build.rs:418-425 | A rendered version reads back as its counter. |
| Versions.CounterIff | src/authoring/build.rs:418-425 | A version counts as number n of a base if and only if it is the base, a dot, perhaps a plus, and digits that spell n, within 64 bits. |
| Versions.ValidVersionIff | src/authoring/build.rs:450-468 | A version is valid if and only if, past one snapshot mark, it is digits in groups between single dots and dashes. |
| Versions.NextIsFresh | src/authoring/build.rs:415-425 | The next version is not published and above every counter of its base. |
| Versions.NextFollowsMembers | src/authoring/build.rs:427-444 | The order of the directory listing does not matter. |
| Versions.ReissuedIff | src/authoring/build.rs:415-425 | A number gone from the directory is issued again by some later build if and only if no published counter is at or above it. |
| Versions.DeletedNewestIsReissued | src/authoring/build.rs:416-417 | Deleting the newest build brings its number straight back, against the comment. |
| Versions.LatestIsNoVersion | src/authoring/build.rs:450-468 | No valid version takes the pointer's name. |
| Publish.ManifestDir.SaveManifest | src/storage.rs:241-271 | A published version is replaced only on request, otherwise nothing is written. |
| Publish.ManifestDir.SetLatest | src/storage.rs:312-329 | The pointer moves and nothing else does. |
| PublishLaws.LatestIsTheLastPointed | src/storage.rs:309-329 | Over every run `latest` names what the last pointer move named, unless it was unlinked since. |
| PublishLaws.ManifestIsTheLastWritten | src/storage.rs:241-271 | Over every run a version holds what the last write of it wrote, unless it was unlinked since. |
| PublishLaws.PublishedMeansLanded | src/jobs.rs:488-519 | Over every run a build that reports a version as published took that number, wrote that manifest and moved the pointer to it, in this order. |
| PublishLaws.StartsIff | src/jobs.rs:254-270 | Over every run a queued build can start exactly when it is no dry run and no build of its pack is under way: none that ended keeps the lock. |
| PublishLaws.NumberIff | src/authoring/build.rs:405-425 | A build takes a number if and only if it was asked for a valid version, or the next counter of its base fits 64 bits and gives one; and that is the one it takes. |
| PublishLaws.BuildsGoOn | src/jobs.rs:488-519 | A build under way can always save, point or finish, and fail at any moment. |
| PublishLaws.UnlinkIff | src/storage.rs:572-583 | A deletion unlinks exactly what is there, one file at a time, and touches no lock and no build. |
| PublishLaws.ConflictIff | src/storage.rs:253-268 | Saving meets a conflict if and only if the version is published and may not be replaced; then nothing is written. |
| PublishLaws.DryRunsOnlyPreview | src/jobs.rs:488-519 | A dry run never holds a lock, writes or points. |
| PublishLaws.BuildPublishes | src/jobs.rs:488-519 | An undisturbed build of a free pack publishes: its manifest there, `latest` naming it, the lock free. |
| Publish.StepKeepsInv | src/jobs.rs:254-310 | Every step of every build and every unlinking keeps the publishing invariant. |
| Publish.PublishingIsSafe | src/jobs.rs:208-312 | Over every interleaving, files unlinked at any moment included, no auto-numbered build hits a conflict and one pack's builds never publish at once. |
| Publish.UnlinkKeepsInv | src/storage.rs:572-583 | Deleting a pack takes no lock and unlinks file by file; each file unlinked leaves every lock and every number good. |
| Publish.StepKeepsLatestIff | src/storage.rs:309-329 | A step leaves `latest` dangling if and only if it unlinks the manifest that names, or moves it to a manifest that is gone. |
| Publish.ThereUntilUnlinked | src/storage.rs:309-329 | From its save to its pointer move a build's manifest is there if and only if nobody unlinked it: no other build can have put it back. |
| Publish.LatestAlwaysSoundIff | src/storage.rs:309-329 | Over every run `latest` never names a missing manifest if and only if no step unlinks the manifest it names and no build moves it to one unlinked since that build saved. |
| Publish.NoDeletionKeepsLatest | src/storage.rs:309-329 | In particular when no manifest is unlinked. |
| Publish.AutoVersionsAreDistinct | src/jobs.rs:512-519 | An auto-numbered build writes a version its pack wrote before only if that manifest was unlinked in between. |
| Publish.AutoSaveIsAbove | src/jobs.rs:512-515 | When such a build writes, its number is above every published counter of its base, whatever happened since it listed them. |
| Publish.StepKeepsPublished | src/storage.rs:253-268 | Only unlinking it removes a published manifest, and only a build asked to overwrite that very version changes it. |
| Publish.RunKeepsPublished | src/storage.rs:253-268 | Without either it never changes over a whole run. |
| Fingerprint.ContentFingerprint | src/authoring/build.rs:342-364 | The value is the hash of the sorted lines of the build. |
| FingerprintLaws.PreimageReads | src/authoring/build.rs:349-363 | What is hashed is, letter for letter, one line of tab-separated words for the version, the loader, Java, each mod and each asset, in byte order. |
| Fingerprint.RenderTells | src/authoring/build.rs:349-361 | A line tells what it was made of, tabs in filenames and versions included. |
| Fingerprint.PreimageIsCanonical | src/authoring/build.rs:334-364 | For texts without newlines, loader names without tabs and hexadecimal hashes, two builds have one preimage if and only if baseline and the multisets of mod and asset tuples are equal. |
| Fingerprint.LoaderTabsCollide | src/authoring/build.rs:351 | A tab in a loader's name moves into its version unseen, whatever else the build holds. |
| Fingerprint.NewlinesCollide | src/authoring/build.rs:353-363 | A mod's filename that runs on through a newline reads as two mods, for any two whose lines stand in order and whatever else the build holds beside mods. |
| Fingerprint.CanonicalIff | src/authoring/build.rs:334-364 | Over the builds that resolve (safe filenames and destinations, none twice, hexadecimal hashes) the preimage is canonical if and only if neither newlines nor tabs in loader names are let in. |
| Fingerprint.PathIsOneLine | src/storage.rs:1625-1640 | A destination that passes as a safe relative path holds no newline. |
| Jobs.JobState.Line | src/jobs.rs:145-148 | A line goes to the end of the log. |
| Jobs.JobState.Finish | src/jobs.rs:150-153 | Finishing leaves the log alone. |
| Jobs.JobState.Since | src/jobs.rs:180-187 | The lines from an index on, none past the end, with the status beside them. |
| Jobs.TailerMissesNothing | src/http/jobs.rs:327-352 | Whatever the timing a tailer has a prefix of the log, and all of it once it saw the job finish. |
| Jobs.IdOrderIsAge | src/jobs.rs:223 | Within their widths, ids sort by age. |
| Jobs.WideCounterSortsFirst | src/jobs.rs:238-240 | Past the counter's width the order turns. |
| Jobs.WideMsSortsFirst | src/jobs.rs:238-240 | Past the width of the milliseconds too. |
| Jobs.IdsSortByAgeIff | src/jobs.rs:238-240 | Ids below a bound on milliseconds and one on counters sort by age if and only if neither bound passes its width. |
| Jobs.IdsTellCounters | src/jobs.rs:218-223 | Different counters never share an id, at any width. |
| Jobs.JobRegistry.Create | src/jobs.rs:217-252 | A new running job under its id, and above fifty the victim gone. |
| Jobs.RegistryStaysBounded | src/jobs.rs:238-250 | Over every run of creates and ends at most fifty jobs are held, or as many as ever ran at once. |
| Jobs.RunningIsNeverDropped | src/jobs.rs:238-250 | No create drops or replaces a running job. |
| Jobs.VictimIsOldestFinished | src/jobs.rs:241-249 | Within the id widths the victim is the oldest finished job. |
| Jobs.VictimsAreOldestIff | src/jobs.rs:241-249 | Below two such bounds every registry's victim is its oldest finished job if and only if neither passes its width. |
| JobSnapshots.SnapshotDir.MarkInterrupted | src/storage.rs:1351-1376 | Name by name, a snapshot that claims to run is written back marked under the job it tells about, and counted; the first name no registry mints, of a file or in a snapshot, is answered and stops it with the names before dealt with. |
| JobSnapshots.SnapshotDir.SweepJobSnapshots | src/storage.rs:1351-1384 | After that all but the last `keep` of the names listed are removed; nothing is removed when a name stopped it. |
| JobSnapshots.SweepMarksAll | src/storage.rs:1351-1376 | Filed as the program files them, all running snapshots are marked and counted once, in any order of the listing. |
| JobSnapshots.RestartSays | src/storage.rs:1351-1376 | A snapshot filed under its job that ran stands failed, its log one line longer and the rest as it was; any other, an unreadable one included, stands as it was. |
| JobSnapshots.MintedNamesPass | src/storage.rs:1351-1363 | No name the registry mints within the widths stops a sweep. |
| JobSnapshots.NothingRunsIff | src/storage.rs:1346-1376 | The marking leaves nothing claiming to run if and only if every running snapshot was filed under its own job id. |
| JobSnapshots.SweepCompletesIff | src/storage.rs:1351-1376 | Filed as the program files them, a sweep runs to its end if and only if no file is named by anything but one to sixty-four small hexadecimal digits and dashes. |
| JobSnapshots.SweepLeaves | src/storage.rs:1346-1384 | Then at most `keep` are left, each as it was or marked, and none runs. |
| JobSnapshots.SweepIsIdempotent | src/storage.rs:1351-1384 | A second sweep, in any order, marks and removes nothing. |
| JobSnapshots.SmallestGo | src/storage.rs:1377-1384 | Every name removed sorts before every name kept. |
| JobSnapshots.PruneKeepsTheNewest | src/storage.rs:1349-1384 | Within the id widths no removed snapshot is newer than a kept one. |
| JobSnapshots.NewestAreKeptIff | src/storage.rs:1349-1384 | Below two bounds that always holds if and only if neither passes its width. |

## Left out

Stated with an assumption, or weaker than the code may be read:

- ClassReader.ReadElementValue: the mutual recursion ends on every input, but the
  depth of the call stack is not bounded here as it is not in the code.
- ClassSpecs.BuildClassSpec: asks that every text and the pool fit their 16-bit
  lengths, which the builder's casts take for granted.
- RequiredMods.DeriveRequired: the log lines of the override are not modelled.
- DepFill.LiveConfig.FillDependencies: what the registry plan and the resolution of
  a target answer are functions handed in, free to differ from question to question;
  that resolution only ever declares pulled Modrinth pins and cache jars is what
  its two legs return.
- ConfigDiff.DiffConfigs: a display block, pack card or auth record is compared as a
  value, where the code compares its JSON text.
- CommitStore.HistoryIsSoundIff: SHA-1 is a function handed in that does not
  collide on the commits of the history at hand; a snapshot is its JSON text.
- CacheInventory.CacheInventoryAfter: asks for a cache sharded as the store writes
  it, and reads a cursor as characters, not bytes.
- Publish.PublishingIsSafe: the config's pack id is the job's, counters stay below
  the u64 maximum, and besides builds and deletions nothing else writes the
  manifests meanwhile, as the command line build could; a file may be unlinked at
  any moment, and failing steps of a build are the build failing.
- JobSnapshots.SnapshotDir.SweepJobSnapshots: takes the directory listing as given,
  and every write and removal as done.
- Fingerprint.PreimageIsCanonical: asks for hexadecimal hashes, as the mirror
  computes or checks them for its own files and Modrinth reports them for its own.
- Jobs.TailerMissesNothing: a job writes no line after it finished, which is the
  order its task runs in.

Not modelled:

- Network, HTTP, SSE, OAuth, the Modrinth client, remote zip ranges and the zip,
  JSON, TOML and SHA-1 libraries.
- SQL: the classification starts from the rows the queries return.
- Resolving a dependency target to a version (newest usable build, cached artifact)
  and reading dependencies off the wire: only that the result is a pulled row.
- `builds_by_commit`: its cache is not coherent under interleaving.
- Gate checks, jar diffs, manifest diffs, validation of uploads, metadata cleaners,
  events and icons.
- Overflow checks: where `idx += 2` wraps in a release build, a debug build panics.
- Real time, file system synchronisation, logging and configuration.
