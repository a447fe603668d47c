# vichrr core in Dafny

A verified model of the core of the Virtual Choir Rehearsal Room (vichrr), a
low-latency system in which singers rehearse together over UDP. Each client
captures audio, sends numbered mono blocks to the server and plays back what
the server sends. The server keeps one jitter ring buffer per client. Once
per tick it reads the next block from every buffer, pans it into stereo, and
sends each client the mix of everybody else plus a metronome.

The model is split into one module per source file:

- `samples.dfy` (`Wrappers`, `Samples`): Option/Result and the arithmetic of
  the 16-bit `sample_t`. This covers the wrap into `int16_t`, C's truncating
  division and the wrap of 32-bit `int` products.
- `audio_buffer.dfy` (`AudioBuffer`): the per-client jitter ring buffer of
  `audioBuffer.h`, at a block width given as a parameter (`stereoBuffer.h`
  is the same code at stereo width). Pure functions over a `BufState`
  value state what `bufferClear`, `bufferRead`, `bufferReadNext`,
  `bufferWrite`, `bufferWriteNext` and `bufferSrvStatsReset` do, and the
  lemmas about the buffer are stated over them. Class `Buffer` keeps the
  slot markers and the stored blocks in arrays. Its methods are proved to
  take the buffer from a state to exactly the state those functions give.
- `server.dfy` (`Server`) covers `server.c`:
  - the client registry (`clients`, `clientsOrdered`) with `newClient`,
    `clientMoveUp` and `clientMoveDown`;
  - the acceptance tests of the UDP receiver;
  - the mix-minus-self loops of the main tick;
  - the metronome keys;
  - the splitting of a beat into stereo blocks.
- `surround.dfy` (`Surround`): `surroundFilter` of `src/surround.hpp`, a
  fixed-point gain per ear and an inter-aural delay that reads one block of
  lookback.
- `audio_io.dfy` (`AudioIO`): the latency meter of `audioIO.h`
  (`aioLatBlock`, `aioLatReset`). It finds the loudest window of
  `BEEP_SAMPLES` samples and overwrites the input with the test signal.
- `tty.dfy` (`Tty`): the status screen of `tty.h` (`ttyUpdateStatus`,
  `ttyResetStatus`) and the level bar of `ttyFormatSndLevel`.
- `client.dfy` (`Client`) covers `client.c`:
  - the reassembly of the status pages;
  - the split of the helo string into keys and description;
  - the numbering and the mono/stereo conversion of blocks in
    `inputCallback`;
  - the key-forwarding rule of the key loop.
- `base64.dfy` (`Base64Codec`): `base64encode` of `webclient.c`, proved to
  produce the Base 64 encoding of section 4 of RFC 4648.
- `webclient.dfy` (`WebClient`): the request parsing of
  `oneTimeHTTPServer` and the split of `/ADDR[:PORT]/PATH` in `main` of
  `webclient.c`.

Where the source updates state in place, the model uses a class with array
fields. Each of its methods is proved against a function of the old state.
Constants that the shown headers do not define are parameters. These are
positive: `MONO_BLOCK_SIZE`, `STEREO_BLOCK_SIZE`, `BUFFER_SKIP_PERIOD`,
`BUFFER_DES_JUMP_PERIOD`, `SHELO_STR_LEN` and the packet sizes. The
metronome limits `METR_MIN_BPM`, `METR_MAX_BPM` and `METR_MAX_BPB` are
integers with no further constraint. Network addresses are opaque values compared for equality.
The tone of the latency meter is a parameter.

## Model

| member | source | states |
|---|---|---|
| Samples.Wrap16 | main.h:27 | storing into `sample_t` gives an `int16_t` congruent to the value modulo 2^16, unchanged when it already fits |
| Samples.Wrap32 | src/surround.hpp:35-36 | an `int` result is congruent to the exact one modulo 2^32 and unchanged when it fits |
| Samples.Wrap16Add | audioBuffer.h:266 | wrapping an intermediate sum to 16 bits does not change the final 16-bit sum |
| Samples.TruncDiv | audioBuffer.h:83 | C division truncates toward zero, for either sign of the dividend |
| Samples.ScaleShrinks | audioBuffer.h:43-45 | scaling by `k/n` with `k < n` never increases the magnitude |
| Samples.Zeros | audioBuffer.h:73 | a silent block of `n` samples is all zeros |
| Samples.AddBlocks | audioBuffer.h:265-267 | `block[i] += data[i]` stores each sum wrapped to `sample_t` |
| Surround.Offsets | src/surround.hpp:31-32 | exactly one ear lags, by the magnitude of `phaseShift` in samples: the left when `phaseShift < 0`, the right when `phaseShift > 0` |
| Surround.Source | src/surround.hpp:35-36 | a negative offset reads the tail of the previous block; as a stream, offset `k` is sample `n + k` of previous block followed by current block |
| Surround.Scale | src/surround.hpp:35-36 | `(x * mult) >> 16` always fits in `sample_t` |
| Surround.ScaleRoundsDown | src/surround.hpp:35-36 | the shift rounds the 32-bit product down to 16.16 fixed point, and the exact product when it does not overflow |
| Surround.Channel | src/surround.hpp:34-37 | output sample `i` of one ear is the scaled input sample at offset `i + off` |
| Surround.Interleave | src/surround.hpp:35-36 | the stereo block is twice as long as each ear |
| Surround.InterleaveAt | src/surround.hpp:35-36 | left sample `i` is at `2i`, right sample `i` at `2i + 1` |
| Surround.InterleaveEq | src/surround.hpp:34-37 | a block with left samples at even and right samples at odd positions is their interleaving |
| Surround.Filtered | src/surround.hpp:30-40 | `surroundFilter` writes a stereo block twice the mono length |
| Surround.ZeroShiftPointwise | src/surround.hpp:31-36 | with no phase shift output sample `i` of each ear is input sample `i` scaled, and the previous block plays no part |
| Surround.CurrentBlockOnly | src/surround.hpp:31-36 | with no offset one ear does not depend on the previous block |
| Surround.Run | src/surround.hpp:30-40 | consecutive calls give one stereo block per input block |
| Surround.RunLooksBack | src/surround.hpp:35-38 | call `j` reads the block given to call `j - 1` as its lookback |
| Surround.BlockStartIsProduct | src/surround.hpp:34 | block `j` starts `j * MONO_BLOCK_SIZE` samples into the stream |
| Surround.FlattenIndex | src/surround.hpp:34 | stream position `j * n + k` is sample `k` of block `j` |
| Surround.LeftEarDelay | src/surround.hpp:31-38 | across calls the left ear hears the input stream `-phaseShift` samples late when `phaseShift < 0` and on time otherwise |
| Surround.RightEarDelay | src/surround.hpp:31-38 | across calls the right ear hears the input stream `phaseShift` samples late when `phaseShift > 0` and on time otherwise |
| Surround.RunEars | src/surround.hpp:34-37 | sample `i` of call `j` is, per ear, the corresponding sample of that ear's channel |
| Surround.ChannelStream | src/surround.hpp:34-38 | one ear's sample `i` of block `j + 1` comes from stream position `(j + 1) * n + i + off` |
| Surround.SurroundCtx.constructor | src/surround.hpp:5-10 | a context with the given gains and shift and a silent lookback block |
| Surround.SurroundCtx.Filter | src/surround.hpp:30-40 | the output is `Filtered` of the previous lookback block and the input, and the input becomes the next lookback block |
| Surround.SurroundCtx.Remember | src/surround.hpp:38 | the lookback block becomes a copy of the input |
| AudioBuffer.NoMarkers | audioBuffer.h:57-59 | every one of the `n` slot markers is 0 (empty) |
| AudioBuffer.ClearedReadsSilence | audioBuffer.h:47-64 | after `bufferClear` the buffer is valid, no slot is filled, and the first `bufferReadNext` returns silence and leaves the read position where it was |
| AudioBuffer.Ramp | audioBuffer.h:43-45 | sample `i` of a fade is the stored sample scaled by `(n-i-1)/n` (fade-out) or `i/n` (fade-in), truncated toward zero |
| AudioBuffer.FadeRamps | audioBuffer.h:78-91 | a fade-out ends on 0, a fade-in starts on 0, and no faded sample is louder than the stored one |
| AudioBuffer.ReadBlock | audioBuffer.h:66-93 | `bufferRead` always hands out a full block |
| AudioBuffer.ReadBlockShape | audioBuffer.h:66-93 | silence when both fades are asked for or the index is outside the written window or its slot is empty; the stored block unchanged with no fade; otherwise the stored block faded |
| AudioBuffer.ReadBlockFrame | audioBuffer.h:66-93 | `bufferRead` depends only on the last written index, the slot markers and the stored data |
| AudioBuffer.SkipScan | audioBuffer.h:118-127 | the skip-search loop never increases the candidate skip |
| AudioBuffer.ChooseSkip | audioBuffer.h:113-129 | a nonzero skip happens only after the cool-down `BUFFER_SKIP_PERIOD`, is at most `BUFFER_SKIP_PERIOD`, stays at least one block behind the writer, and lands on two filled slots |
| AudioBuffer.LossScan | audioBuffer.h:143-164 | a jump found by the loss scan is no longer than the reads already waited |
| AudioBuffer.LossScanFinds | audioBuffer.h:143-164 | the loss scan finds the first index at which the stream resumes (two consecutive filled, written slots) and finds none exactly when there is none within the wait |
| AudioBuffer.StartPos | audioBuffer.h:103-110 | when the writer is a whole ring ahead reading restarts half a ring behind it, otherwise the position stays; either way the writer is less than a ring ahead |
| AudioBuffer.ResumeAt | audioBuffer.h:131-164 | the hold-back happens exactly when the previous block was faded on schedule, no skip is pending and the next block is present; a present block not held back is used at once; a jump happens only without a skip, moves no further than the wait and counts each skipped block as lost |
| AudioBuffer.ResumeAtFirst | audioBuffer.h:143-164 | a loss jump goes to the first resumption point |
| AudioBuffer.ResumedState | audioBuffer.h:98-164 | the state after the first stages of `bufferReadNext` is valid |
| AudioBuffer.Stage | audioBuffer.h:98-164 | the first stages of `bufferReadNext` keep the state valid and the wait counter at least -1 |
| AudioBuffer.DeliverState | audioBuffer.h:166-209 | the delivery stage changes only `readPos`, `fade`, `srvStatPlay`, `srvStatWait` and `nullReads`, and keeps `nullReads` at least -1 |
| AudioBuffer.DeliverBlock | audioBuffer.h:166-209 | the delivery stage hands out a full block |
| AudioBuffer.ReadNextState | audioBuffer.h:96-224 | `bufferReadNext` advances the read clock by one and leaves the written range, markers and data alone |
| AudioBuffer.ReadNextBlock | audioBuffer.h:96-245 | `bufferReadNext` hands out a full block |
| AudioBuffer.ReadNextMonotone | audioBuffer.h:96-224 | the read position never moves back, all four server counters only grow, and one call plays at most one block |
| AudioBuffer.ReadNextPlays | audioBuffer.h:166-193 | a played block is the stored block right behind the new read position, faded in after a jump or silence and faded out before one; an unplayed call returns silence |
| AudioBuffer.ReadNextSilence | audioBuffer.h:189-209 | when no block is played the result is silence |
| AudioBuffer.ReadNextSkips | audioBuffer.h:113-129 | a committed skip is at most `BUFFER_SKIP_PERIOD`, happens only after the cool-down, restarts it, and lands on a filled slot inside the written range with the wait cleared |
| AudioBuffer.CommitLands | audioBuffer.h:211-224 | a skip committed where both candidate slots are filled and written lands on one of them, with the wait folded into the wait counter and cleared |
| AudioBuffer.ReadNextLoses | audioBuffer.h:143-164 | a jump over lost blocks goes to the first place where the stream resumed and never further than the reads already waited |
| AudioBuffer.TickAccounting | audioBuffer.h:96-224 | every call is counted once as played, waited or lost, except the one silence deliberately inserted after an on-schedule fade-out |
| AudioBuffer.SuppressOnce | audioBuffer.h:133-140 | after an on-schedule fade-out the next block, though present, is held back exactly once and silence is returned |
| AudioBuffer.ClearGap | audioBuffer.h:250-255 | the gap fill leaves a ring of the same size |
| AudioBuffer.ClearGapAt | audioBuffer.h:250-255 | every index of the opened gap is marked empty and every other slot keeps its marker |
| AudioBuffer.WriteStep | audioBuffer.h:249-274 | a write is accepted exactly when its index is not behind the read position; the last written index becomes the larger of the two; only it, the markers and the data change |
| AudioBuffer.WriteStepEffects | audioBuffer.h:249-274 | the gap is marked empty; an accepted block is stored (or added when `add` is set and the slot is filled) and marked with the read clock; nothing else changes |
| AudioBuffer.RejectedWriteKeepsSlot | audioBuffer.h:257-259 | a write behind the read position changes no stored block, and inside the written range no marker either |
| AudioBuffer.Written | audioBuffer.h:276-278 | `bufferWriteNext` keeps the state valid |
| AudioBuffer.SteadyTick | audioBuffer.h:96-278 | a writer one block ahead gets the oldest block played back unfaded, the reader advances by one and stays steady |
| AudioBuffer.Lockstep | audioBuffer.h:96-278 | lockstep writing and reading yields one output per block written |
| AudioBuffer.LockstepInOrder | audioBuffer.h:96-278 | in-order blocks played in lockstep come out in order, one tick late, with no inserted silence and no fade |
| AudioBuffer.Buffer.constructor | audioBuffer.h:22-64 | a fresh buffer is valid and in the state `bufferClear` leaves |
| AudioBuffer.Buffer.Clear | audioBuffer.h:47-64 | the new state is `ClearedState` of the old one |
| AudioBuffer.Buffer.ClearCursor | audioBuffer.h:48-53 | read position, read clock, cool-down, last written index, fade and wait take their cleared values; nothing else changes |
| AudioBuffer.Buffer.ClearCounters | audioBuffer.h:60-63 | the four server counters become 0; nothing else changes |
| AudioBuffer.Buffer.ClearMarkers | audioBuffer.h:57-59 | every slot marker becomes 0 |
| AudioBuffer.Buffer.Silence | audioBuffer.h:72-74 | the returned block is all zeros |
| AudioBuffer.Buffer.Read | audioBuffer.h:66-93 | the returned block is `ReadBlock` of the current state |
| AudioBuffer.Buffer.ComputeSkip | audioBuffer.h:113-129 | the skip computed in place equals `ChooseSkip` |
| AudioBuffer.Buffer.ScanSkip | audioBuffer.h:117-127 | the loop's result equals `SkipScan` from the last written index |
| AudioBuffer.Buffer.FindResume | audioBuffer.h:143-164 | the loop's result equals `LossScan` from index 0 |
| AudioBuffer.Buffer.HoldBackOrJump | audioBuffer.h:131-164 | position, use flag and new state are those of `ResumeAt` |
| AudioBuffer.Buffer.HoldBack | audioBuffer.h:131-140 | the block is used when present and not held back; a pending hold-back is dropped otherwise |
| AudioBuffer.Buffer.JumpLost | audioBuffer.h:143-164 | jumps to `LossScan`'s index, counts the skipped blocks as lost, and restarts the cool-down unless the wait is used up |
| AudioBuffer.Buffer.Deliver | audioBuffer.h:166-209 | new state and block are `DeliverState` and `DeliverBlock` |
| AudioBuffer.Buffer.Play | audioBuffer.h:169-188 | hands out the stored block with the pending fade-in, steps past it, counts it and the reads waited, and arms the hold-back on request |
| AudioBuffer.Buffer.CommitSkipIn | audioBuffer.h:211-224 | the new state is `CommitSkip` of the old one |
| AudioBuffer.Buffer.Advance | audioBuffer.h:97-110 | advances the read clock and moves to `StartPos`, setting the fade flag on a long jump |
| AudioBuffer.Buffer.ReadNext | audioBuffer.h:96-246 | new state and block are `ReadNextState` and `ReadNextBlock` of the old state |
| AudioBuffer.Buffer.Write | audioBuffer.h:249-274 | new state and result are `WriteStep` of the old state |
| AudioBuffer.Buffer.WriteNext | audioBuffer.h:276-278 | writes at the last written index plus one, accepted exactly when that is not behind the read position |
| AudioBuffer.Buffer.SrvStatsReset | audioBuffer.h:292-299 | returns the four counters and zeroes them; the delay is `writeLastPos - readPos + 1` modulo 2^32 |
| Server.FreeSlot | server.c:105-121 | the slot `newClient` searches for: the lowest empty or disconnected slot from `i`, every slot before it connected; none exactly when all are connected |
| Server.Handout | server.c:103-126 | `newClient` hands out the lowest free slot, and refuses exactly when every slot is connected or the free slot was never allocated and the allocation fails |
| Server.OthersMembers | server.c:128-136 | the compaction keeps exactly the connected seated entries other than the new client |
| Server.OthersIgnore | server.c:128-136 | the compaction does not depend on what the new client's own slot holds |
| Server.OthersFit | server.c:128-137 | the other connected clients leave room for the new one: they are distinct and fewer than MAX_CLIENTS |
| Server.ReseatedConsistent | server.c:128-143 | after the compaction every connected client is seated exactly once, also once the new client connects |
| Server.ReseatedShape | server.c:128-140 | the new seating order is the other connected clients in their previous order, then the new client, then NULLs |
| Server.Registry.constructor | server.c:34-35 | both tables start all NULL |
| Server.Registry.NewClient | server.c:103-143 | `newClient`: the returned id is `Handout`; the slot table gains the picked client and the seating order becomes the compacted one; on refusal nothing changes; the registry stays consistent |
| Server.Registry.PickSlot | server.c:105-126 | the slot loop: picks `Handout`'s slot and installs a reused or freshly allocated client there, nothing else |
| Server.Registry.Compact | server.c:128-140 | the compaction of `clientsOrdered` yields `Reseated` |
| Server.Registry.KeepOthers | server.c:128-136 | the first compaction loop moves the other connected entries to the front, in order, and counts them |
| Server.Registry.PadNulls | server.c:138-140 | the closing loop fills the rest of the seating order with NULL |
| Server.SeatOf | server.c:147-157 | the first seat of client `c` from `j` on, or none |
| Server.NextSeat | server.c:164-173 | the first seated entry from `j` on, or none |
| Server.SeatBefore | server.c:146-156 | the last seated entry before `j`, or -1 |
| Server.Swap | server.c:151-152 | swapping two entries exchanges exactly those two |
| Server.SwapConsistent | server.c:145-176 | swapping two seated entries keeps every connected client seated once and keeps the set of seated positions |
| Server.MovedUpConsistent | server.c:145-160 | moving a client up keeps the registry consistent |
| Server.MovedDownConsistent | server.c:162-176 | moving a client down keeps the registry consistent |
| Server.UpThenDown | server.c:145-176 | a client with someone seated before it that moves up and then down is back where it was |
| Server.DownThenUp | server.c:145-176 | a client seated once with someone after it that moves down and then up is back where it was |
| Server.Registry.MoveUp | server.c:145-158 | `clientMoveUp` leaves the seating order `MovedUp` and the registry consistent |
| Server.Registry.SwapUp | server.c:146-158 | the loop of `clientMoveUp` computes `MovedUp` |
| Server.Registry.MoveDown | server.c:162-174 | `clientMoveDown` leaves the seating order `MovedDown` and the registry consistent |
| Server.Registry.SwapDown | server.c:163-174 | the loop of `clientMoveDown` computes `MovedDown` |
| Server.GetClient | server.c:80-83 | a client is returned exactly when slot `id` holds a connected one, and it is that slot's client |
| Server.GetClientAsWritten | server.c:80-83 | within the table the lookup agrees with `GetClient`; past it the result is whatever lies beyond the table |
| Server.DataAcceptance | server.c:331-337 | a data packet is taken exactly when its size is exact, its id names a connected client and the sender is that client's address |
| Server.DataOverrunAccepted | server.c:80-83 | with the unbounded lookup a data packet with id 200 is taken when the word past the table looks like a connected client with the sender's address |
| Server.KeyAcceptance | server.c:339-346 | a key press is taken exactly when the data test passes and its index is above the client's last accepted one |
| Server.KeyReplayRefused | server.c:344-346 | once index `b` is accepted from a client, no index `<= b` from it is accepted again and every later one is |
| Server.Registry.Helo | server.c:305-330 | a helo is taken exactly when the version matches and the address is new (and a slot is handed out); the client gets the address, a zero `lastKeyPress` and is connected; refused helos change nothing |
| Server.Registry.FindAddr | server.c:313-323 | the duplicate loop finds exactly whether a connected client has the sender's address |
| Server.Registry.KeyPress | server.c:219-292 | a key press that passes the test records its index; 'u' and 'd' move the client and leave the metronome alone; other keys change the metronome settings as `SettingsKey` says and leave the registry alone; a refused press changes nothing |
| Server.Registry.Touch | server.c:346 | only the client's `lastKeyPress` changes |
| Server.Registry.Disconnect | server.c:508-511 | a failed send clears only that client's connected flag |
| Server.Registry.Mix | server.c:464-474 | every mixed sample is the 16-bit wrap of the sum of the connected clients' panned samples |
| Server.Accumulate | server.c:471-473 | one client's block is added, in 16-bit arithmetic |
| Server.MixSumSplit | server.c:472-502 | the full mix is the mix without a connected client plus that client's own block |
| Server.MixMinus | server.c:497-504 | the block sent to a client is the 16-bit sum of the other connected clients' blocks plus the metronome block |
| Server.SettingsKey | server.c:250-291 | the metronome keys: 'm' toggles (and resets the beat time when switching on), j/k/J/K step the tempo by 2 or 20 only within the limits, h/l step the bar length within 0..max, other keys change nothing; the limits are kept |
| Server.TempoUpDown | server.c:260-279 | a tempo step up followed by the matching step down restores the settings |
| Server.ToggleTwice | server.c:250-258 | two presses of 'm' restore the enabled flag and everything but the beat time |
| Server.Metronome.constructor | server.c:448-450 | the metronome starts disabled with the default tempo and bar length |
| Server.Metronome.Key | server.c:250-291 | a metronome key updates the settings as `SettingsKey` says and leaves the beat counters |
| Server.Metronome.Restart | server.c:522-529 | on enabling, the beat and bar counters go to -1 and the buffer is cleared at 0 |
| Server.NextBar | server.c:537 | the next bar index in `size_t` arithmetic is below the bar length |
| Server.BarCycle | server.c:524-538 | after a restart beat `k` has bar index `k % beatsPerBar`, so every bpb-th beat, the first one included, is a main beat |
| Server.Metronome.Advance | server.c:534-539 | a beat advances the beat counter, and the bar counter when the bar length is not 0; the main beat is bar index 0 |
| Server.Chunks | server.c:551-563 | a beat is written as blocks of exactly STEREO_BLOCK_SIZE samples |
| Server.ChunksCount | server.c:551-563 | a beat of `s` samples takes `ceil(s / n)` blocks |
| Server.ChunksCover | server.c:551-563 | laid end to end the blocks are the beat followed by fewer than `n` zeros |
| Server.WriteChunks | server.c:555-562 | writing blocks keeps the buffer valid and moves the last written position to at least the last block's time |
| Server.Metronome.Beat | server.c:533-563 | a due beat sets the beat time, advances the counters, writes the main or the ordinary sound as its blocks from `nextBeatTime` on and returns the time after them |
| Server.Metronome.WriteBeat | server.c:551-563 | the copy loop writes exactly the beat's blocks at consecutive times |
| Server.Metronome.Step | server.c:552-557 | one round of the copy loop keeps the copied prefix and what is left to write |
| Server.Metronome.Flush | server.c:554-556 | a block that is full is written at the next time and the next block starts |
| Server.Metronome.Finish | server.c:558-563 | after the loop the partial last block, if any, is written |
| Server.Metronome.FlushLast | server.c:558-563 | the partly filled last block is padded with zeros and written at the next time |
| Server.Metronome.Pad | server.c:559-561 | the last block is the rest of the beat followed by zeros |
| AudioIO.SumSqAppend | audioIO.h:179 | the accumulated energy of two consecutive stretches of input is the sum of their energies |
| AudioIO.WindowFromRing | audioIO.h:181 | the difference between the running sum and the ring entry written `BEEP_SAMPLES` samples earlier is the energy of the last `BEEP_SAMPLES` samples |
| AudioIO.PeakExtend | audioIO.h:180-186 | the strict `>` update keeps `aioLatMaxDiff` the largest window energy seen and `aioLatMaxDiffPos` the first window reaching it |
| AudioIO.PeakUnique | audioIO.h:173-174 | the peak energy and its position are determined by the input heard |
| AudioIO.EmittedShape | audioIO.h:189-195 | the test signal is silence for `WAIT_SAMPLES`, then `-30000` or `30000` (as the tone says) for `BEEP_SAMPLES`, then silence |
| AudioIO.LatencyMeter.constructor | audioIO.h:170-175 | all accumulators start at 0 with nothing heard |
| AudioIO.LatencyMeter.Measure | audioIO.h:179-195 | one sample is accounted for (running energy, ring of past sums, peak window) and replaced by the test signal at the new position |
| AudioIO.LatencyMeter.Track | audioIO.h:180-186 | the peak and its position stay the first maximal window after one more sample |
| AudioIO.LatencyMeter.Compare | audioIO.h:181-185 | the window ending at the new sample replaces the peak exactly when its energy is strictly larger |
| AudioIO.LatencyMeter.Store | audioIO.h:187 | the running sum goes into the ring slot `aioLatPos % BEEP_SAMPLES` and the position advances, keeping the ring equal to the last `BEEP_SAMPLES` running sums |
| AudioIO.LatencyMeter.MeasureAt | audioIO.h:178-196 | sample `i` of the block is heard and overwritten by the test signal; no other sample changes |
| AudioIO.LatencyMeter.MeasureAll | audioIO.h:178-196 | every input sample of the block is heard in order and replaced by the test signal for its position |
| AudioIO.LatencyMeter.Block | audioIO.h:177-198 | as `MeasureAll`, and the buffer latency of the block is added to the running total |
| AudioIO.LatencyMeter.Reset | audioIO.h:200-220 | reports a measurement exactly when more than `BEEP_SAMPLES + WAIT_SAMPLES` samples were heard, and zeroes the five accumulators |
| Tty.LinesHaveNoBreak | tty.h:158-164 | the status text is cut into lines at its '\n's: no line holds one |
| Tty.JoinLines | tty.h:158-164 | joining the lines back with '\n' gives the status text |
| Tty.LineCount | tty.h:158-164 | the text has one line more than it has '\n's |
| Tty.FillAt | tty.h:159-168 | a screen line holds the line's first STATUS_WIDTH characters, spaces after a short line, and '\n' last |
| Tty.RenderedLines | tty.h:156-169 | the rendered text is the screen lines of the text's lines laid end to end |
| Tty.RenderedSize | tty.h:159-161 | the rendered text is exactly STATUS_WIDTH + 1 characters per line |
| Tty.RenderedLine | tty.h:159-168 | character `k` of screen line `j` is '\n' at STATUS_WIDTH, the line's character `k` if it has one, else a space; characters past STATUS_WIDTH are dropped |
| Tty.StatusScreen.constructor | tty.h:142-143 | the zero-initialised `ttyStatusStr`, no lines |
| Tty.StatusScreen.Reset | tty.h:174-177 | `ttyResetStatus`: the line count is 0, the text starts with '\0' and nothing else changes |
| Tty.StatusScreen.Update | tty.h:144-173 | `ttyUpdateStatus`: the lines from `firstLine` on are the rendered text; lines between the old count and `firstLine` are blank; the line count becomes the larger of its old value and the line after the last one written, so it never decreases; nothing else changes |
| Tty.StatusScreen.FillBlank | tty.h:147-152 | blank lines fill the gap from the old line count to `firstLine`, and only it |
| Tty.StatusScreen.WriteText | tty.h:154-169 | the main loop writes the rendered text from line `firstLine` on, ends on the line after the last one, and touches nothing else |
| Tty.StatusScreen.EmitLine | tty.h:158-168 | one screen line is written, consuming one line of the text |
| Tty.StatusScreen.WriteLine | tty.h:158-168 | the characters of one line, truncated at STATUS_WIDTH and followed by the skip to the next '\n' |
| Tty.StatusScreen.Pad | tty.h:160-161 | a short line is padded with spaces up to STATUS_WIDTH and ended with '\n' |
| Tty.StatusScreen.SkipLine | tty.h:166-168 | the rest of a line that does not fit is skipped up to its '\n' or the end |
| Tty.Bar | tty.h:205-210 | '[', 38 cells and ']'; cell `j` is '#' when the average is above `2j - 76` dB, else '+' when the peak is, else '-' |
| Tty.Above | tty.h:206-209 | the cells whose threshold a level exceeds are exactly a prefix of the bar, the lowest thresholds first |
| Tty.BarShape | tty.h:205-210 | every bar is '#' up to the average's count of exceeded thresholds, then '+' up to the peak's, then '-': the shape `#*+*-*` |
| Tty.FormatLevel | tty.h:204-210 | the loop writes exactly `Bar(avg, peak)` and advances the write position past it |
| Client.Receive | client.c:216-231 | one status page keeps the receiver state well formed (index in `int` range, count below 256, 256 flags) |
| Client.ClassifyAgrees | client.c:219-230 | with status indices below 2^31 the mixed signed/unsigned comparisons treat a page as newer, older or current exactly when its index is greater than, less than or equal to `statusIndex` |
| Client.IndexNeverDecreases | client.c:219-230 | a page never moves the receiver back to an older status, and only a newer status can raise the page count |
| Client.Deliver | client.c:216-231 | any run of pages keeps the receiver state well formed |
| Client.CollectPages | client.c:226-231 | pages of the status being collected keep the status index, lower the page count to the smallest one seen and add exactly their own flags |
| Client.StatusCompletes | client.c:219-238 | after the first page of a newer status and more pages of it, the status is complete exactly when every page below the smallest page count seen has arrived |
| Client.StatusReceiver.constructor | client.c:180-182 | `statusIndex` -1, `packetsCnt` 0, the received flags uninitialised |
| Client.StatusReceiver.OnStatus | client.c:216-238 | a page while connected updates the state as `Receive` says, and is ignored otherwise; the tty status is reset exactly for a newer status; the page completes the status exactly when it is not older and all pages below the count have arrived |
| Client.StatusReceiver.ClearReceived | client.c:222-224 | every received flag is cleared |
| Client.StatusReceiver.AllReceived | client.c:233-238 | the completeness loop answers exactly `Complete` |
| Client.HeloText | client.c:195-196 | the copied helo text fits `SHELO_STR_LEN` characters and holds no '\0' |
| Client.HeloSplit | client.c:197-203 | the keys part has no '\n'; with a '\n' the keys, the '\n' and the description make up the helo text; without one the keys are the whole text and the description is empty |
| Client.AcceptHelo | client.c:191-203 | the buffer's C string is the keys part of the copied helo text; a description is found exactly when the text has a '\n', and its C string is the description part |
| Client.SplitKeys | client.c:197-203 | writing '\0' over the first '\n' splits the buffer into keys and description |
| Client.CopyString | client.c:195-196 | `strncpy` copies the C string up to the buffer size and pads the rest with '\0' |
| Client.StereoRoundTrip | client.c:143-145 | each channel of the doubled stereo block is the mono block, and taking every second sample of it gives the mono block back |
| Client.MonoOfMono | client.c:111-113 | with one input channel the mono block is the captured block |
| Client.Step | client.c:99-136 | the block counter stays a `uint32` and the last mode becomes the current one |
| Client.ConsecutivePackets | client.c:124-136 | while the user only mutes and unmutes, the data packets carry consecutive block numbers modulo 2^32 |
| Client.FirstPacket | client.c:124-136 | the first packet after entering INPUT_SEND is numbered 0, unless the client was muted, when numbering continues |
| Client.InputCallback.constructor | client.c:99-100 | the counter starts at 0, the last mode is INPUT_END and the latency meter starts empty and valid |
| Client.InputCallback.Run | client.c:98-174 | one callback updates the counter and last mode as `Step` says and does what `EffectOf` says with the down-mixed block; in INPUT_MEASURE_LATENCY the meter hears that block and the echo is the stereo form of the test signal `aioLatBlock` wrote over it; the meter is reset exactly on entering measurement; the callback continues exactly unless the mode is INPUT_END |
| Client.InputCallback.Enter | client.c:114-133 | `aioLatReset` runs exactly on entering INPUT_MEASURE_LATENCY and empties the meter; the counter restarts as `Started` says; the last mode becomes the current one |
| Client.InputCallback.Act | client.c:134-170 | the packet, echo or silence of `EffectOf`; in INPUT_MEASURE_LATENCY the meter hears the mono block, which is overwritten with the test signal before the echo loop copies it |
| Client.MeasuredEcho | client.c:156-163 | while measuring, the block played does not depend on the microphone, and it is silence while the blocks fall in the first WAIT_SAMPLES samples after the reset |
| Client.DownMix | client.c:111-113 | the loop keeps the first channel of every frame |
| Client.ToStereo | client.c:143-145 | the loop writes each mono sample to both channels |
| Client.ToggleTwice | client.c:489-491 | 'M' always leaves the client sending or muted, and two presses restore the mode |
| Client.ForwardIndices | client.c:482-503 | forwarded key presses carry consecutive indices from the loop's counter; 'M' and keys the server does not offer are never sent |
| Client.KeyLoop.constructor | client.c:483 | key press numbering starts at 1 |
| Client.KeyLoop.OnKey | client.c:484-512 | one key does what `Press` says: y/n while closed; 'M' toggles muting; an offered key is forwarded with the next index |
| Client.FindKey | client.c:493 | the `strchr` loop finds exactly the keys the server offers, and a '\0' key |
| WebClient.Stop | webclient.c:91 | the position of the first ' ' or '\0' after "GET ": every character before it is neither |
| WebClient.RequestRoundTrip | webclient.c:88-93 | "GET ", a target without spaces and the rest of the request line read back as that target |
| WebClient.RequestPathShape | webclient.c:90-92 | a kept target starts right after "GET " and holds no space and no '\0' |
| WebClient.CopyTerminated | webclient.c:93 | the copy holds a '\0' exactly when the target is shorter than MAX_URL_LEN, and then reads back as the target |
| WebClient.UnterminatedRequest | webclient.c:86-93 | "GET " and 1024 non-space characters fit the `recv` limit, yet leave `requestStr` without a '\0' |
| WebClient.RequestTerminated | webclient.c:86-93 | with a `recv` limit one lower, `requestStr` always ends in '\0' and holds the whole target |
| WebClient.ReadRequest | webclient.c:86-93 | a request is accepted exactly when it starts with "GET "; `requestStr` then holds the `strncpy` of the target; a rejected request leaves it unchanged |
| WebClient.SkipToSpace | webclient.c:91 | the `strchr` for ' ' stops at `Stop` |
| WebClient.CopyN | webclient.c:93 | the `strncpy` loops write exactly `StrNCpy` |
| WebClient.SplitRoundTrip | webclient.c:255-265 | /ADDR:PORT/PATH splits back into ADDR, PORT and PATH, and /ADDR/PATH into ADDR, "80" and PATH |
| WebClient.SplitOf | webclient.c:255-265 | the part before the first '/' is ADDR[:PORT] and the rest of the C string is the path |
| WebClient.SplitRequest | webclient.c:255-265 | the split succeeds exactly when `Split` finds a '/'; the '\0's written into `requestStr` leave the address, port and path as the C strings `Split` names; a failed split changes nothing |
| WebClient.CutPort | webclient.c:261-264 | the ':' search and cut leave the address and port as `PortSplit` says |
| WebClient.StrChr | webclient.c:255 | `strchr` stops at the first wanted character or the terminator |
| WebClient.AcceptRequest | webclient.c:86-93 | with the corrected limit, a request is accepted and split as `Split` of the copied target, and a request not starting with "GET " yields nothing |
| Base64Codec.GroupCount | webclient.c:54 | the number of rounds of the loop: `ceil(len / 3)` groups cover `len` bytes |
| Base64Codec.GroupCountIsCeiling | webclient.c:54 | the round count is `(len + 2) / 3` |
| Base64Codec.ChunkIsQuad | webclient.c:55-56 | the shifts and masks of a 24-bit chunk give the four base64 digits of its three bytes |
| Base64Codec.GroupsAreQuads | webclient.c:54-57 | the loop's output groups are the base64 quads of the input |
| Base64Codec.EncodedIsBase64 | webclient.c:52-60 | for input zero-padded to a multiple of 3, the output is the RFC 4648 base64 of the first `len` bytes, `4 * ceil(len / 3)` characters long |
| Base64Codec.Base64Split | webclient.c:52-60 | base64 of any input is its whole groups then its padded tail |
| Base64Codec.PartialGroup | webclient.c:58-59 | overwriting the last `pad` characters of the final group with '=' gives the padded tail |
| Base64Codec.Base64Encode | webclient.c:52-60 | `base64encode` writes exactly `Encoded` and a '\0' after it, and nothing past the '\0' |
| Base64Codec.EncodeGroups | webclient.c:54-57 | the group loop writes the quads of all groups and leaves `len` at minus the pad count |
| Base64Codec.PadEnd | webclient.c:58-59 | the padding loop replaces the last `-len` characters with '=' |
| Base64Codec.WriteChunk | webclient.c:56 | the inner loop writes the four digits of one chunk and nothing else |

## Left out

- Concurrency: the receiver and mixer threads and every `__sync_synchronize`. Calls are modelled as sequential.
- Floating point and the levels derived from it:
  - the level statistics of the buffer (`statAvgSq`, `statMaxSq`, `bufferOutputStats`, `bufferOutputStatsReset`);
  - `surroundInitCtx`, which uses `sqrt`, `sin` and `exp10f`, and `clientsSurroundReinit` (the gains and the shift are constructor arguments of `Surround.SurroundCtx`);
  - the latency estimates and the per-client metronome delay with its fade hysteresis;
  - the timing of the next beat, which becomes the `nextBeatTime` argument of `Server.Metronome.Beat`;
  - the SNR result of `aioLatReset`, the 440 Hz waveform of the test tone (a parameter), the dB adjustment of the client and the `%4.0f` text after the level bar.
- Input and output: sockets and addresses (`net.h`), `recv` errors, PortAudio, the terminal (`ttyReadKey`, the prompts, `ttyMoveUp`, `ttyPrintStatus`, `ttyClearStatus`), wall-clock scheduling and client timeouts, the log output and the recording to a file (the 'r' key).
- `statusAppendLine` and `getStatusStr` of `server.c`: they only format text and send it.
- The OpenSSL and WebSocket part of `webclient.c` (lines 101-233). `websocket_parser.h` is not part of this model.
- `DEBUG_*` blocks.
- Server.Registry.Helo: of `udpRecvHelo` only the registry effects are modelled: the address, `lastKeyPress`, the connected flag and the slot. The name copy, the buffer reset, the latencies, the panner set-up and the reply packet are left out.
- Server.Registry.KeyPress: the 'r' key (recording, file I/O) and the 'n' key (no effect) change nothing in the model.
- Server.SettingsKey: the source's `float beatsPerMinute` is an integer in the model. This is exact when `METR_DEFAULT_BPM`, `METR_MIN_BPM` and `METR_MAX_BPM` are integers, because the keys only move the tempo by 2 or 20. A fractional default or limit is not modelled. The floating-point beat interval derived from the tempo (server.c:531) is left out with the beat timing.
- Server.Metronome.Beat: the beat sounds `metronomeRes1` and `metronomeRes2` are arguments, and the per-client read of the metronome buffer in the mix is left out. The mix takes the metronome block as an optional argument.
- AudioBuffer: `bindex_t` indices are unbounded naturals, so the model assumes no 32-bit wrap of `readPos`, `writeLastPos` and `readTime` (the source compares them with plain `<`).
- AudioIO.LatencyMeter.Block: the 64-bit accumulators are unbounded integers; their wrap is not modelled.
- Tty.StatusScreen.Update: requires the text to fit below STATUS_HEIGHT lines. The source does not check this and writes past `ttyStatusStr` otherwise.
- Client.ClassifyAgrees: stated for status indices below 2^31, which the server reaches only after 2^31 status updates.
- Client.InputCallback.Run: the exit on a wrong `frameCount` is replaced by the requirement that the block holds `MONO_BLOCK_SIZE` frames. The `paAbort`/`paContinue` result is the `more` flag.
- Client.KeyLoop.OnKey: `keyPressIndex` is an unbounded integer; its `int` overflow is not modelled.
- Client.StatusReceiver.OnStatus: the `ttyUpdateStatus` calls that place a page on the screen and the key descriptions are left out, as are the NOOP packet and the reconnect.
- Base64Codec.Base64Encode: bytes are unsigned. With a signed `char`, a byte of 0x80 or more is sign-extended by `raw[0] << 16 | ...` and spoils the chunk.
- WebClient.ReadRequest: `recv` is given as the received characters. Its error result (-1) and the socket set-up errors are left out.

## Findings

| source | as written | input that shows it | evidently intended | confidence | as-written member | corrected member |
|---|---|---|---|---|---|---|
| server.c:80-83 | `getClient(id)` reads `clients[id]` without checking `id < MAX_CLIENTS`, and the receiver passes it the id taken from the packet | a `PACKET_DATA` of the right size with `clientID` 200: the word read past the table decides whether it is taken | ids of `MAX_CLIENTS` or more are refused | not executed | Server.GetClientAsWritten, Server.DataOverrunAccepted | Server.GetClient, Server.DataAcceptance |
| webclient.c:86-93 | `recv` takes up to MAX_URL_LEN + 4 characters, then `strncpy(requestStrBuf, buf + 4, MAX_URL_LEN)` | "GET " followed by 1024 characters without a space: `requestStr` gets no '\0' and the `strchr` calls of `main` read past it | receive at most MAX_URL_LEN + 3 characters, so the target always ends in '\0' | not executed | WebClient.UnterminatedRequest, WebClient.ReadRequest | WebClient.RequestTerminated, WebClient.AcceptRequest |
