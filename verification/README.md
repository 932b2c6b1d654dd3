# Verified models of the modem tools

This project models the algorithmic core of the modem and card tools under `tools/` and proves what that core
promises.  Each module follows one component; classes and methods with loops stand where the Python code updates
objects or arrays, and each is proved against a specification function whose own properties are the lemmas.

| modules | component |
|---|---|
| `StreamBookkeeping`, `RationalResampling`, `LagrangeResampling`, `CodecBoundary` | the two streaming rate converters, their trimmed history, and the 8000/9600 Hz queue built from them |
| `InfoCrc`, `LineCoding` | the CRC of V.34 INFO sequences (section 10.1.2.3.2 of ITU-T V.34), the scrambler of its clause 7 with the taps as written (18 and 23), and the differential encoder |
| `EventRing`, `BulkDelay`, `TxMailbox`, `BlockHold` | the protocols the host and the DSP run over shared words |
| `Bytes`, `DataBlocks`, `Combifile`, `SparseImage`, `DspStage`, `IdmaPort` | the firmware container, from file bytes to the memory image, the staged card image and the download port |
| `AtEscape`, `IdiElements`, `MuLaw` | the terminal's escape and fax framing, signalling elements, and G.711 mu-law |
| `Arithmetic`, `Options` | shared helpers |

Samples and filter taps are exact reals; integers are unbounded and every 16-, 24- or 32-bit width the code relies on
is written out.  A kernel frame is an arbitrary function of the words it was given.  The invariants of `BulkDelay.Card`
and `TxMailbox.Card` do not read the shared memory, so they hold whatever the firmware stores there between two calls.
`EventRing.KernelDispatch` and `BlockHold.Card` do depend on shared words: the first keeps its invariant under `Firmware`,
a card that may set any status and add any events to the ring but writes nothing else, the second under page loads that
do not write the held word.

## What the models found

* The history trimming of the rational resampler is invisible exactly when
  `down - phase <= up * (2T + T/2 + 3)` and (`-phase <= up * (T + T/2 + 3)` or `down - phase <= up * (T + T/2 + 4)`),
  where `T` is the taps per phase (`UsableExactly`).  The codec's 6:5 and 5:6 without a phase meet it for any number of
  taps (`CodecRatesUsable`); a ratio such as 1:1000 with few taps does not, and then some filter and some input give a
  wrong output.
* The history stays within `2T + T/2 + 2` samples over every run exactly when the phase offset is less than the greatest
  common divisor of the rates (`TapsBoundExactly`).  At 6:5 with 16 taps and a phase of 6, 25 samples are enough to hold
  43 where the taps alone give 42 (`HistoryWitness`).
* The bearer queue never runs empty exactly when two inequalities on taps and phases hold (`SteadyExactly`,
  `ServedExactly`).  The default wiring meets them with room to spare; a six-point converter before the kernel fails them
  unless its phase offset is below -2, and the first call then repeats the initial output (`SixPointStarves`).
* The first poll of the event ring after the 16-bit counter has already wrapped may consume fewer than eight events
  (`FirstPollLaw`).
* With the page 13 hold switched on, page 14 is held even when its own setting is off, although the message the code
  prints says that setting decides (`Page14Setting`).
* The section-length check of the image builder and the width and address checks of the sparse loader cannot fire on
  what the parser accepts (`ParsedRecordCuts`, `OnlyOverlapFails`).
* A Class 1 frame survives being cut into reads exactly when no read ends on an unpaired DLE (`FramesRoundTrip`).  After
  a bad cut the frame may gain a byte, end early or never be completed, also when the cut falls between DLE and ETX
  (`BadCuts`).

## Model

| member | source | states |
|---|---|---|
| `StreamBookkeeping.TrimmingIsFaithful` | tools/analog_kernel_dispatch.py:455-483 | for every safe geometry, filter and input, the outputs with trimming are those of the untrimmed stream, index for index, and the state stays in step |
| `StreamBookkeeping.TrimmingExactly` | tools/analog_kernel_dispatch.py:476-482 | the safety condition is exact: it holds if and only if trimming is invisible to every filter on every input |
| `StreamBookkeeping.DueExactly` | tools/analog_kernel_dispatch.py:460-466 | an output is emitted precisely when the newest sample its window reaches has arrived |
| `StreamBookkeeping.PushDelivers` | tools/analog_kernel_dispatch.py:455-483 | one push returns exactly the untrimmed outputs that became due, no more and no fewer |
| `StreamBookkeeping.WindowIgnoresTheFuture` | tools/analog_kernel_dispatch.py:467-475 | an emitted output never depends on samples still to come |
| `RationalResampling.UsableIsSafe` | tools/analog_kernel_dispatch.py:436-483 | the integer condition on up, down, taps and phase implies the trimming is safe |
| `RationalResampling.UsableExactly` | tools/analog_kernel_dispatch.py:476-482 | the condition on up, down, taps and phase is met if and only if every choice of coefficients is resampled correctly on every input |
| `RationalResampling.OutputIsInterpolation` | tools/analog_kernel_dispatch.py:462-475 | the polyphase sum of an output equals the full convolution of the zero-stuffed stream at its position |
| `RationalResampling.OutputCount` | tools/analog_kernel_dispatch.py:460-475 | after k pushes the number of outputs is a closed-form ceiling |
| `RationalResampling.HistoryBound` | tools/analog_kernel_dispatch.py:477-482 | the history kept after a push is bounded by taps and phase, however long the run |
| `RationalResampling.TapsBoundExactly` | tools/analog_kernel_dispatch.py:477-482 | the taps alone bound the history over every run if and only if the phase offset is less than the greatest common divisor of the rates |
| `RationalResampling.HistoryWitness` | tools/analog_kernel_dispatch.py:477-482 | at 6:5, 16 taps and phase 6, 25 samples leave 43 held where the taps alone give 42 |
| `RationalResampling.CodecRatesUsable` | tools/analog_kernel_dispatch.py:687-712 | 6:5 and 5:6 without a phase meet the trimming condition for any number of taps |
| `RationalResampling.RationalResampler.Push` | tools/analog_kernel_dispatch.py:455-483 | the object's outputs so far are the untrimmed definition applied to its inputs so far |
| `RationalResampling.RationalResampler.SumTaps` | tools/analog_kernel_dispatch.py:467-474 | the inner loop over the taps, skipping what is not held, computes the polyphase sum |
| `LagrangeResampling.Moments` | tools/analog_kernel_dispatch.py:503-515 | for every fraction the six coefficients sum to 1 and reproduce the first five powers of the fraction |
| `LagrangeResampling.WindowOfPolynomial` | tools/analog_kernel_dispatch.py:503-533 | six samples of a polynomial of degree at most five interpolate to its value at the fraction |
| `LagrangeResampling.ReadsPolynomial` | tools/analog_kernel_dispatch.py:517-535 | whatever the output and wherever its window lies, a window holding a polynomial of degree at most five is read as that polynomial at the fraction |
| `LagrangeResampling.InterpolatesAt` | tools/analog_kernel_dispatch.py:517-535 | the untrimmed output at any position, the first ones included, is six samples around it under the coefficients, with silence outside the input |
| `LagrangeResampling.RunInterpolates` | tools/analog_kernel_dispatch.py:517-542 | every output of every run is that interpolation of its inputs |
| `LagrangeResampling.RunReproduces` | tools/analog_kernel_dispatch.py:517-542 | once its window lies inside real samples, the output of a whole run is the polynomial at m*down/up + phase |
| `LagrangeResampling.UsableIsSafe` | tools/analog_kernel_dispatch.py:536-541 | under a bound on the ratio and the phase no sample still needed is trimmed |
| `LagrangeResampling.LagrangeResampler.Push` | tools/analog_kernel_dispatch.py:517-542 | the object's outputs are the untrimmed six-point interpolation of its inputs |
| `LagrangeResampling.Coefficients` | tools/analog_kernel_dispatch.py:503-515 | the double loop yields the Lagrange basis at offsets -2 to 3 |
| `CodecBoundary.SignedUndoesMask` | tools/analog_kernel_dispatch.py:917-932 | masking to 16 bits and sign extending is the identity on 16-bit samples |
| `CodecBoundary.ClampExactly` | tools/analog_kernel_dispatch.py:934-942 | clamping keeps a 16-bit value and takes any other to the nearer bound |
| `CodecBoundary.RoundsToNearest` | tools/analog_kernel_dispatch.py:934-942 | rounding and clamping take every real to its nearest 16-bit sample, ties to even |
| `CodecBoundary.WordCarriesNearest` | tools/analog_kernel_dispatch.py:932-935 | the word presented to the kernel is 16 bits wide and carries that sample |
| `CodecBoundary.FramesCarryNearest` | tools/analog_kernel_dispatch.py:933-935 | word by word, the kernel gets the nearest sample to what the converter delivered |
| `CodecBoundary.EndToEnd` | tools/analog_kernel_dispatch.py:930-943 | for usable converters the kernel sees the untrimmed codec stream and the untrimmed bearer stream of its replies comes back |
| `CodecBoundary.CountIs` | tools/analog_kernel_dispatch.py:455-542 | either converter has completed, after n pushes, a whole-number ceiling of outputs |
| `CodecBoundary.SteadyExactly` | tools/analog_kernel_dispatch.py:930-943 | for either kind of converter on either side, any rates in lowest terms, taps and phases: every call finds a sample to return if and only if two inequalities on lags and phases hold |
| `CodecBoundary.ServedExactly` | tools/analog_kernel_dispatch.py:930-943 | for usable converters and any kernel, every call of every run is served if and only if those inequalities hold |
| `CodecBoundary.QueueBounds` | tools/analog_kernel_dispatch.py:930-943 | then the queue after every call lies between bounds that do not grow with the run |
| `CodecBoundary.DefaultOccupancy` | tools/analog_kernel_dispatch.py:930-943 | at the default 16 taps exactly 19 samples are queued after every call, and the codec runs six frames in every five calls after the first |
| `CodecBoundary.SixPointStarves` | tools/analog_kernel_dispatch.py:496-525 | a six-point converter before the kernel completes nothing in the first call unless its phase offset is below -2 |
| `CodecBoundary.AnalogKernelModem.constructor` | tools/analog_kernel_dispatch.py:687-712 | either converter on either side, with any parameters, starts with an empty queue and a zero last output |
| `CodecBoundary.AnalogKernelModem.FrameFast` | tools/analog_kernel_dispatch.py:930-943 | a call returns the 16-bit sample nearest to the next one of the resampled reply stream if there is one and repeats itself otherwise; under the inequalities the n-th call returns sample n-1, and at the defaults 19 stay queued |
| `CodecBoundary.Resampler.Push` | tools/analog_kernel_dispatch.py:455-542 | either converter object delivers what a run over its inputs delivers |
| `InfoCrc.AcceptedExactly` | tools/info_cc_framer_probe.py:80-100 | a payload and sixteen bits leave residue zero if and only if the bits are the transmitted CRC of the payload |
| `InfoCrc.StepOnWords` | tools/info_cc_framer_probe.py:80-84 | the register step is the shift and exclusive or with 0x8408 on a 16-bit word |
| `InfoCrc.MachineCrc` | tools/info_cc_framer_probe.py:80-97 | over every message the register holds the bits of the machine word that starts at 0xFFFF |
| `InfoCrc.LeadingZerosShow` | tools/info_cc_framer_probe.py:95-97 | from the preset no run of zeros has CRC zero |
| `InfoCrc.SyncIs` | tools/info_cc_framer_probe.py:60-94 | the sync pattern is 0x372, highest bit first |
| `InfoCrc.BurstRejected` | tools/info_cc_framer_probe.py:80-100 | any change confined to sixteen consecutive bits, in payload or CRC, leaves a nonzero residue |
| `InfoCrc.OddErrorsRejected` | tools/info_cc_framer_probe.py:80-85 | any odd number of changed bits leaves a nonzero residue |
| `InfoCrc.FeedIsClocking` | tools/info_cc_framer_probe.py:80-85 | feeding bits is adding them to the register and clocking it empty |
| `InfoCrc.BuildFrame` | tools/info_cc_framer_probe.py:87-100 | the frame is fill, sync, then a message the receiver accepts, then fill |
| `InfoCrc.RunCrc` | tools/info_cc_framer_probe.py:95-97 | the loop over the payload runs the register through every bit in order |
| `InfoCrc.DilDescriptor` | tools/dial_tikrnl_drive.py:376-409 | the descriptor has 276 bits and its frame ends in the CRC a receiver accepts |
| `LineCoding.RoundTrip` | tools/dial_tikrnl_drive.py:348-373 | differential decoding and descrambling recover every bit of every scrambled and encoded string |
| `LineCoding.SelfSynchronises` | tools/dial_tikrnl_drive.py:348-373 | a receiver starting anywhere, with any register contents, recovers every bit after a window of 24 |
| `LineCoding.WindowIsTight` | tools/dial_tikrnl_drive.py:348-373 | that window cannot be shortened |
| `LineCoding.DescramblerErrors` | tools/dial_tikrnl_drive.py:348-367 | one wrong bit at the descrambler comes out wrong at its own place and 18 and 23 places later, and nowhere else |
| `LineCoding.LineErrors` | tools/dial_tikrnl_drive.py:348-373 | one wrong bit on the line spoils exactly six received bits |
| `LineCoding.ScrambleUnique` | tools/dial_tikrnl_drive.py:360-367 | the recurrence determines the scrambled string |
| `LineCoding.EncodeUnique` | tools/dial_tikrnl_drive.py:368-372 | the encoding recurrence determines the encoded string, so both spellings of the encoder agree |
| `LineCoding.Scramble` | tools/dial_tikrnl_drive.py:360-367 | the appending loop satisfies the recurrence with taps 18 and 23 |
| `LineCoding.Trn1u` | tools/dial_tikrnl_drive.py:322-337 | the shift-register form gives the recurrence on all-ones input |
| `LineCoding.EncodeTransmitted` | tools/dial_tikrnl_drive.py:368-373 | the first spelling of the differential encoder encodes |
| `LineCoding.EncodeAccumulated` | tools/dial_tikrnl_drive.py:424-428 | the second spelling satisfies the same recurrence |
| `LineCoding.PlaceholderJa` | tools/dial_tikrnl_drive.py:348-373 | the placeholder block is a scrambled, encoded string of 300 bits that a receiver can undo |
| `LineCoding.V90Ja` | tools/dial_tikrnl_drive.py:412-428 | for any descriptor the block is 24 ones and the descriptor, scrambled and encoded, and a receiver undoes it |
| `EventRing.LossLaw` | tools/dial_kernel_dispatch.py:295-318 | a poll loses nothing if at most eight events came since the last one and all but the newest eight otherwise |
| `EventRing.RingExactly` | tools/dial_kernel_dispatch.py:284-306 | a ring is nine words in memory that meet none of the words the protocol uses otherwise |
| `EventRing.FirstPollLaw` | tools/dial_kernel_dispatch.py:307-311 | what the first poll reads, before and after the counter has wrapped |
| `EventRing.PollStart` | tools/dial_kernel_dispatch.py:307-317 | the 16-bit counter arithmetic of a poll picks the unbounded position the law gives, across wrap-around |
| `EventRing.SlotWritten` | tools/dial_kernel_dispatch.py:289-293 | storing an event in its slot keeps the ring a window on the newest eight |
| `EventRing.AllPublished` | tools/dial_kernel_dispatch.py:256-333 | the events of a cycle, once consumed, leave the published words equal to the mirrors and the mirrors to the status |
| `EventRing.FlagsNameEvents` | tools/dial_kernel_dispatch.py:276-288 | the three change flags name exactly the events the same cycle writes, and no earlier flag is left |
| `EventRing.PublishesChanges` | tools/dial_kernel_dispatch.py:274-288 | a component is published exactly when it differs from the last cycle, all three on the first, none on an unchanged status |
| `EventRing.MirrorsChanges` | tools/dial_kernel_dispatch.py:279-288 | a mirror takes the new value exactly when its component is published, and an unchanged status clears the flags |
| `EventRing.SeenExactly` | tools/dial_kernel_dispatch.py:318-327 | a published word takes its mirror exactly when its event was read |
| `EventRing.KernelDispatch.ProduceRx2400` | tools/dial_kernel_dispatch.py:256-293 | a cycle fires exactly when the phase accumulator says, updates the mirrors that changed, sets the flags and appends the events; an unchanged status publishes nothing and clears the flags; no other word changes, and none at all without a cycle |
| `EventRing.KernelDispatch.PollEvents` | tools/dial_kernel_dispatch.py:295-333 | the events returned are the contiguous suffix the loss law names, in order |
| `EventRing.KernelDispatch.Service` | tools/dial_kernel_dispatch.py:335-340 | after n services exactly floor(2400n/8000) cycles have fired and the host's words agree with the mirrors as of the latest |
| `DataBlocks.ContainersInverse` | tools/eicon_dsp_extract.py:222-242 | unpacking the 16-, 24- and 32-bit containers undoes packing them |
| `DataBlocks.SplitRelocation` | tools/eicon_dsp_extract.py:115-187 | relocating a CALL or JUMP on FLAG_IN adds the base to its split address modulo 0x4000 and keeps its condition bits |
| `DataBlocks.FieldRelocation` | tools/eicon_dsp_extract.py:146-159 | the other relocation kinds add the base, modulo its width, to one field of the word and leave the bits below it alone |
| `DataBlocks.ResolvesExactly` | tools/eicon_dsp_extract.py:124-173 | which guard refuses a container; otherwise it resolves to itself without a relocation byte, and with one to the word whose address field has the named base added |
| `DataBlocks.RelocatedUnique` | tools/eicon_dsp_extract.py:143-173 | those fields determine the word |
| `DataBlocks.ResolvesEach` | tools/eicon_dsp_extract.py:124-187 | a block resolves container by container, and the first refusal refuses it |
| `DataBlocks.ResolveBlockValues` | tools/eicon_dsp_extract.py:115-187 | the loop over the containers resolves each one or stops at the first that cannot be |
| `DataBlocks.PlainValuesStand` | tools/eicon_dsp_extract.py:115-187 | values that carry no relocation resolve to themselves |
| `DataBlocks.WrittenValuesReadBack` | tools/eicon_dsp_extract.py:215-250 | a block written from plain values decodes to them |
| `DataBlocks.PayloadIsPadded` | tools/eicon_dsp_extract.py:215-223 | a payload is its containers and a pad byte exactly when an odd number of packed 24-bit words needs one |
| `DataBlocks.BlockExactly` | tools/eicon_dsp_extract.py:203-268 | a block is accepted if and only if its bytes are those of a well-formed block, which is what is returned |
| `DataBlocks.AcceptedValues` | tools/eicon_dsp_extract.py:203-250 | each value of an accepted block from its bytes: the container in its width and host-word order, relocated where it is marked |
| `DataBlocks.BlockAddress` | tools/eicon_dsp_extract.py:94-103 | an accepted block lies at its offset from the base its segment names, inside the 16-bit address space |
| `Combifile.ManyExactly` | tools/eicon_dsp_extract.py:310-340 | a cursor over a number of items accepts exactly the concatenation of that many good items |
| `Combifile.SectionExactly` | tools/eicon_dsp_extract.py:190-275 | a section is accepted if and only if its blocks fill its declared size exactly |
| `Combifile.HeadExactly` | tools/eicon_dsp_extract.py:278-330 | header, excess bytes and description are accepted exactly when magic, version and sizes are right |
| `Combifile.DownloadExactly` | tools/eicon_dsp_extract.py:278-372 | a record is accepted if and only if its bytes are those of a well-formed download |
| `Combifile.RecordLayout` | tools/eicon_dsp_extract.py:278-372 | which header word counts what, and where every table, row and section of an accepted record stands |
| `Combifile.FrontExactly` | tools/eicon_dsp_extract.py:375-408 | the file header and directory, with the slack they allow, are accepted exactly when well formed |
| `Combifile.FrontStands` | tools/eicon_dsp_extract.py:375-408 | the same for the header, description and directory of the file |
| `Combifile.PaddedExactly` | tools/eicon_dsp_extract.py:30-31 | a magic string stands character by character, filled up with zeros |
| `Combifile.FileExactly` | tools/eicon_dsp_extract.py:375-427 | parsing and layout are inverse: a file is accepted, every byte accounted for, if and only if it is the layout of a well-formed value, which is what is returned |
| `Combifile.FileValues` | tools/eicon_dsp_extract.py:375-427 | every value of every block of any accepted file is the one stored for it, relocated where marked |
| `Combifile.ReadDownload` | tools/eicon_dsp_extract.py:278-372 | the cursor through a record computes the parse |
| `Combifile.ReadCombifile` | tools/eicon_dsp_extract.py:375-427 | the loop over masks and records computes the parse |
| `SparseImage.LoadsExactly` | tools/eicon_dsp_extract.py:430-449 | loading succeeds if and only if all values and addresses fit and no two blocks disagree, and the image holds exactly what the blocks put there |
| `SparseImage.InRangeExactly` | tools/eicon_dsp_extract.py:430-449 | addresses have 16 bits, values 16 in data and 24 in program memory |
| `SparseImage.OrderDoesNotMatter` | tools/eicon_dsp_extract.py:430-449 | the outcome and the image depend only on which blocks there are |
| `SparseImage.OnlyOverlapFails` | tools/eicon_dsp_extract.py:430-449 | on parsed blocks the width and address checks never fire: loading fails if and only if two blocks disagree about an address |
| `SparseImage.ParsedRecordsLoad` | tools/eicon_dsp_extract.py:375-449 | the same for both sections of every record of every accepted file |
| `SparseImage.LoadSparse` | tools/eicon_dsp_extract.py:430-449 | the in-place loader leaves that image, zero elsewhere, and the set of addresses it wrote |
| `DspStage.ParsedRecordCuts` | tools/eicon_dsp_stage.py:260-285 | a parsed record cuts into its own seven sections with nothing left over, so the length check never fires |
| `DspStage.LengthCheckExactly` | tools/eicon_dsp_stage.py:260-285 | the length check refuses exactly the records whose header accounts for more or fewer bytes than there are |
| `DspStage.AppendAllLaid` | tools/eicon_dsp_stage.py:227-240 | sections appended one after another are aligned, in order, disjoint and stand where their pointers say |
| `DspStage.DescriptorReads` | tools/eicon_dsp_stage.py:289-303 | a descriptor reads back as the counters and pointers it was packed from |
| `DspStage.CountersMean` | tools/eicon_dsp_stage.py:289-303 | the ten counters of a parsed record count what the record holds |
| `DspStage.BuildsExactly` | tools/eicon_dsp_stage.py:206-318 | a build of parsed records fails if and only if there are too many for the table or a section's address needs more than 32 bits |
| `DspStage.EverySectionReadsBack` | tools/eicon_dsp_stage.py:223-318 | following the image's pointers from the base address reads back every section of every record; they are aligned and outside the table, and zero if and only if the section is empty |
| `DspStage.PointersExactly` | tools/eicon_dsp_stage.py:223-318 | every pointer in closed form: sections follow the table without gaps, each at the next multiple of four |
| `DspStage.TableRestIsZero` | tools/eicon_dsp_stage.py:313-316 | unused descriptors and the gap before the sections are zero |
| `DspStage.SectionsApart` | tools/eicon_dsp_stage.py:227-240 | each section ends before the next one begins |
| `DspStage.CountersStand` | tools/eicon_dsp_stage.py:289-318 | the count and every descriptor's counters stand in the table |
| `DspStage.Payload.AppendSection` | tools/eicon_dsp_stage.py:227-240 | the closure returns the section's address, or 0 and no change for an empty one, and leaves the payload padded |
| `DspStage.BuildCode` | tools/eicon_dsp_stage.py:206-318 | the loops over records and sections compute the specified image |
| `DspStage.FileSetExactly` | tools/eicon_dsp_stage.py:116-124 | the first directory row for the card type decides, and a card without a row is an error |
| `DspStage.MarksAreDigits` | tools/eicon_dsp_stage.py:125-135 | the file sets a mask byte marks are its binary digits |
| `DspStage.MarksByByte` | tools/eicon_dsp_stage.py:125-135 | eight file sets to a byte, in order |
| `DspStage.RequiredExactly` | tools/eicon_dsp_stage.py:116-136 | a card gets each download its file set marks, as often as the file has it, and no other; which errors come when |
| `DspStage.RequiredInOrder` | tools/eicon_dsp_stage.py:131-136 | the selected downloads are those at the marked places, in the file's order |
| `DspStage.ChosenExactly` | tools/eicon_dsp_stage.py:131-136 | a selection keeps each matching download as often as it occurs and no other |
| `DspStage.ChosenInOrder` | tools/eicon_dsp_stage.py:131-136 | a selection is the subsequence at the matching places |
| `DspStage.PlacesExactly` | tools/eicon_dsp_stage.py:131-136 | those places are all the matching ones, each once, ascending |
| `DspStage.FamilyExactly` | tools/eicon_dsp_stage.py:140-156 | the family is the file sets of the first task kernel that carries the card's file set, or that file set alone |
| `DspStage.KernelExactly` | tools/eicon_dsp_stage.py:149-155 | a kernel is a download 0x0258 marked for the file set |
| `DspStage.VariantExactly` | tools/eicon_dsp_stage.py:172-175 | a variant has the id and shares a file set with the family |
| `DspStage.ExtraExactly` | tools/eicon_dsp_stage.py:159-188 | an extra id resolves if and only if the card lacks it and exactly one entry of the file is a variant for its task family |
| `DspStage.SelectionExactly` | tools/eicon_dsp_stage.py:212-216 | what is staged is everything the card requires and then, for each extra id in order, the only new variant of it; it is refused exactly when the requirement is or some id has none |
| `DspStage.BuildDspCodeImage` | tools/eicon_dsp_stage.py:191-318 | file bytes, card type and extra ids to the image |
| `DspStage.CardFindsEverySection` | tools/eicon_dsp_stage.py:191-318 | for every file, card and list of extra ids, a successful staging lets the card find every section of every selected download |
| `DspStage.TableListsSelection` | tools/eicon_dsp_stage.py:191-318 | the table lists a record for each required download and each extra id, under its own id and with counters that count its contents |
| `IdmaPort.DecodesWindows` | tools/analog_mips_boot.py:398-404 | an address decodes to a block if and only if it lies in that block's window |
| `IdmaPort.DataSideExactly` | tools/analog_mips_boot.py:418-423 | bit 14 of the address decides between the memories |
| `IdmaPort.DspPorts.MmioWrite` | tools/analog_mips_boot.py:406-431 | one write changes the addressed block's port as specified and no other block |
| `IdmaPort.DspPorts.ServeAll` | tools/analog_mips_boot.py:406-431 | any number of calls takes the four ports through the specified run |
| `IdmaPort.BlocksAreSeparate` | tools/analog_mips_boot.py:406-431 | over any run of writes a block ends as if only its own writes had been made |
| `IdmaPort.StreamStores` | tools/analog_mips_boot.py:418-431 | host words streamed into a program-memory port store one instruction per pair |
| `IdmaPort.DataStreamStores` | tools/analog_mips_boot.py:418-422 | on the data side each host word is stored as it is, and program memory and a pending half word are not disturbed |
| `IdmaPort.StandsInPlace` | tools/analog_mips_boot.py:429-430 | each value stands at its own address modulo 0x4000 until a later one comes round |
| `IdmaPort.ContainerInstruction` | tools/eicon_dsp_extract.py:227-238 | the two host words of a 32-bit container carry the extractor's 24-bit instruction |
| `IdmaPort.UnrelocatedExactly` | tools/eicon_dsp_extract.py:227-238 | a block is unrelocated when the top byte of every stored container is zero |
| `IdmaPort.StreamedBlock` | tools/analog_mips_boot.py:406-431 | streaming an unrelocated 32-bit program-memory block after an address write, interleaved with any traffic to the other blocks, stores the instructions the extractor decoded at consecutive addresses |
| `AtEscape.Terminal.FeedData` | tools/eicon_at.py:366-404 | everything fed equals what was sent to the link followed by the held escapes, and the counters track where an escape began |
| `AtEscape.Terminal.FeedByte` | tools/eicon_at.py:383-403 | one byte is held, sent, or sent after the escapes it cancels, keeping the account |
| `AtEscape.Terminal.Poll` | tools/eicon_at.py:406-419 | data mode is left if and only if the session ends in at least three escapes with guard silence before and after, and exactly three characters were withheld |
| `AtEscape.EscapeMeans` | tools/eicon_at.py:366-419 | what an escape is: three escape characters at the end without a guard time; with one, silence that long after the last and before a closing run of at least three |
| `AtEscape.Terminal.Connected` | tools/eicon_at.py:453-455 | a new session starts with nothing held |
| `AtEscape.FaxPort.FeedFaxData` | tools/eicon_at.py:286-323 | the cursor over a chunk computes the unescaped payload or the completed frame |
| `AtEscape.FaxPort.FeedChunks` | tools/eicon_at.py:286-323 | a run of reads computes the frame, or the payload so far |
| `AtEscape.FramesRoundTrip` | tools/eicon_at.py:286-338 | however a frame doubled by the receive side and closed with DLE ETX is cut into reads, it comes out unchanged if and only if no read ends on an unpaired DLE |
| `AtEscape.BadCuts` | tools/eicon_at.py:302-319 | what bad cuts do, one input each: the frame gains a byte, ends early, or is never completed |
| `AtEscape.SplitPairAddsOne` | tools/eicon_at.py:302-305 | when the second DLE of a pair is alone in its read, the frame gains a byte |
| `BulkDelay.DefaultDelays` | tools/dial_tikrnl_drive.py:1355-1362 | the two delays for every firmware word: seeded and spanned, then far at the ceiling, then both |
| `BulkDelay.OverriddenDelays` | tools/dial_tikrnl_drive.py:1355-1362 | overrides stand for near and far within their bounds |
| `BulkDelay.LineAdvances` | tools/dial_tikrnl_drive.py:1364-1382 | a bounded line stays the newest pairs, oldest first |
| `BulkDelay.Card.ServiceBulk` | tools/dial_tikrnl_drive.py:1345-1384 | an active service returns the pairs of `near` and `far` active services ago, silence before the first; a change of length starts afresh; no other word changes |
| `BulkDelay.Card.Exchange` | tools/dial_tikrnl_drive.py:1379-1384 | the two reads are always inside the line, and give those pairs |
| `TxMailbox.WordsAreTheSource` | tools/dial_tikrnl_drive.py:1549-1559 | the words in turn, most significant bit first, are the source repeated without end |
| `TxMailbox.RisesExactly` | tools/dial_tikrnl_drive.py:1496-1512 | requests are counted once for each place where they rise |
| `TxMailbox.Card.ServiceTxRequest` | tools/dial_tikrnl_drive.py:1481-1512 | while a request stands the mailbox gets one constant word, that of the rise which began it, and nothing else is written |
| `TxMailbox.Card.TakeWord` | tools/dial_tikrnl_drive.py:1538-1559 | sixteen bits are taken from the cyclic source and the position moves on |
| `BlockHold.Card.HoldTxBlock` | tools/dial_tikrnl_drive.py:1273-1317 | the clear instruction is zero exactly while a held page is resident, with the original saved once, also when switching directly between the pages |
| `BlockHold.Card.DownloadOverlay` | tools/dial_tikrnl_drive.py:1148-1219 | a load that is served makes its page resident and leaves the instruction as that page demands; a page without an image changes nothing |
| `BlockHold.Card.DownloadAll` | tools/dial_tikrnl_drive.py:1148-1219 | over any run of page loads the instruction ends as the last page served demands |
| `BlockHold.LastServedExactly` | tools/dial_tikrnl_drive.py:1148-1219 | the last page served is the one after which no other was |
| `BlockHold.Page14Setting` | tools/dial_tikrnl_drive.py:1293-1299 | page 14's own setting decides about it if and only if page 13's is off |
| `MuLaw.SegmentBounds` | tools/adsp_arith_oracle.py:51-52 | the chosen segment is the octave of the biased magnitude |
| `MuLaw.DecodesToMiddle` | tools/adsp_arith_oracle.py:48-71 | a sample decodes to the middle of the interval it was encoded in, with its sign |
| `MuLaw.Monotone` | tools/adsp_arith_oracle.py:48-71 | encoding and decoding never reverses the order of two samples |
| `MuLaw.Saturates` | tools/adsp_arith_oracle.py:48-71 | all samples decode within 32124 of zero, and those from the clip on reach it |
| `MuLaw.ErrorBound` | tools/adsp_arith_oracle.py:48-71 | up to the clip the error is at most 2^(e+2) for the segment e that was chosen |
| `MuLaw.LevelsStand` | tools/adsp_arith_oracle.py:48-71 | every code's level survives being encoded and decoded again |
| `MuLaw.TableCorners` | tools/adsp_arith_oracle.py:48-71 | silence, the smallest negative sample and both full scales have the codes of the tables |
| `IdiElements.EncodesExactly` | tools/eicon_idi.py:213-226 | encoding fails exactly on an element whose code or length does not fit a byte |
| `IdiElements.OrdinaryExactly` | tools/eicon_idi.py:235-243 | all codes are ordinary but 0x00 and 0x90 to 0x9F |
| `IdiElements.IdiParameters` | tools/eicon_idi.py:213-226 | the appending loop computes the encoding |
| `IdiElements.ParseIdiParameters` | tools/eicon_idi.py:229-252 | the index walk computes the parse, with its two truncation errors |
| `IdiElements.RoundTripExactly` | tools/eicon_idi.py:213-252 | parsing an encoding gives the elements before the first that is a terminator or a shift, hence the list itself if and only if it has none |
| `IdiElements.CutPayload` | tools/eicon_idi.py:229-252 | a payload cut anywhere parses to an error or to a beginning of what the whole parses to |
| `IdiElements.CutEncoding` | tools/eicon_idi.py:213-252 | a truncated encoding never yields a different element |
| `IdiElements.CallRequestReadsBack` | tools/eicon_idi.py:818-858 | a call request parses to exactly its ordinary elements despite the codeset-6 tail |
| `IdiElements.CallNumbers` | tools/eicon_idi.py:801-848 | user, configuration, calling, called and subaddress elements, with whose digits and plan stand in each |
| `IdiElements.CallRequestTail` | tools/eicon_idi.py:849-858 | the bytes behind the elements: shift to codeset 6, the service pair, the terminator |

## Left out

- The ADSP-2181 core, Unicorn and the firmware itself: a kernel frame is an arbitrary function and a firmware store an arbitrary step.
- Floating-point rounding and the windowed-sinc design: taps are arbitrary reals and sums are exact.
- CodecBoundary.AnalogKernelModem.FrameFast: the path without converters at equal rates is left out, being one kernel frame; so are the environment variables that set kinds, taps and phases (any values are covered), CSV and PCM tracing.
- The doorbell and download half of `KernelDispatch.service`; a valid event pointer also has to keep the ring clear of the status, mirror and pointer words, and fewer than 65536 events may come between two polls.
- SHA-256 digests, file offsets, relocation records, decoded description strings and the wording of error messages; errors keep their kind.
- SparseImage.LoadSparse: a negative address is an error here, where the Python list would index from its end; parsed blocks have none.
- DspStage.BuildCode: the base address and table size are natural numbers, and the lists of staged names and DM words the builder returns besides the image are reduced to id, address and size.
- BulkDelay.Card.ServiceBulk: the descriptor-selector override, a diagnostic, is not modelled.
- TxMailbox.Card.ServiceTxRequest: the gated, replayed, pattern and PRBS sources and the page 14 mailbox, diagnostics that follow the same protocol.
- BlockHold.Card.DownloadOverlay: pages that themselves write the held word, base relays and the PM patches are excluded.
- The PM 0x19C8 hold, because overlays load that word themselves.
- The A-law codec, DTMF and energy tests, `IdiCallControl`, the AT command table and the request rings of the card boot.
- Serial ports, PTYs, file access, argument parsing and printing.
