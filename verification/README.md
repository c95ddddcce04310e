# Impossible Voice: a verified model of the realtime speech pipeline and its services

The program is a local speech server. Clients stream PCM16 audio over a WebSocket or a gRPC call and get interim and
final transcripts; they send text and get synthesized audio; an artifact store installs and verifies the native
runtime and the models. This project models that behaviour in Dafny and proves properties of it. `dafny verify
dfyconfig.toml` checks the whole project.

The model has four parts.

**The speech pipeline.** Bytes are decoded (`Pcm.dfy`), resampled to 16 kHz (`Resampler.dfy`), cut into 320-sample
frames and grouped into utterances by a voice detector (`Vad.dfy`), and a recognizer stream hears each utterance
(`Stt.dfy`, `SttEngine.dfy`). Each of these is a class whose fields the methods update, as in the source.
`Transcription.dfy` says what a transcription *is*, as a function of the whole recording that never mentions chunks:
which updates it causes, what `finish` answers, which audio each recognizer stream gets. The classes are proved to
refine it, so transport boundaries cannot matter. `Wav.dfy` is the RIFF/WAVE reader and writer ("Multimedia
Programming Interface and Data Specifications 1.0", section "Waveform Audio File Format (WAVE)").

**The session protocols.** `Realtime.dfy` is the WebSocket session as a reaction to each input. `RealtimeRuns.dfy` and
`RealtimeAudio.dfy` state what holds of every run, `RealtimeOrder.dfy` which messages it allows and what a synthesis
session says, and `RealtimeLoop.dfy` is the handler code itself, with a session updated in place, a socket on which any
send may fail, and a deadline that may drop the handler at any await. Its contract determines what it reads and how it
ends by what arrives, the deadline and the failing sends. `Grpc.dfy` is the bidirectional call, its loop and its bounded
output queue, and `GrpcOrder.dfy` the order it enforces. `Agreement.dfy` proves that both transports tell a client the
same thing about the same audio. `Speech.dfy` is synthesis with its cancellation fence and the cutting of its result into
chunks.

**Capacity.** `Capacity.dfy` interleaves all HTTP requests, WebSocket sessions, gRPC calls and native workers over the
admission and execution semaphores, the session semaphore and the engines' permits. `LimiterSteps.dfy` is the permit
counter at the level of single atomic loads and compare-exchanges.

**The artifact store.** `Paths.dfy` and `Trees.dfy` are an abstract filesystem with path strings, in which
operations, reads and existence tests included, may fail by an arbitrary schedule. `Artifacts.dfy` is verification of an
installed object; `Extraction.dfy` is archive extraction, and `BackslashNames.dfy` two archives at its edge;
`ArtifactStore.dfy` is one setup run, which records every intermediate disk, and `Profile.dfy` the curated profile as a
whole, over any number of runs and crashes.

Conventions. Samples are `real`. Machine integers are unbounded in Dafny, so every overflow test of the source is
written out against `U64_MAX` or `U32_MAX`. Everything outside the program is a parameter: when a request is stopped,
which native call, file operation or send fails, what arrives on a socket and when the deadline strikes, what a
download delivers. The recognizer is a pair of functions from the audio a stream has accepted to its partial and final
text, and another pair that gives the decoder steps each call takes; a call fails that takes more samples than a native
length can hold, or 100 000 steps (`crates/impossible-voice-sherpa-sys/src/lib.rs:17`, 571-589).
SHA-256, JSON and the archive format are functions of bytes, of which only one thing is required, and only where
needed: an encoded inventory decodes to itself.

Some results correct the documentation of the program, or what one would expect of it.

- `docs/api.md:56` says that every failure emits an `error` event. `RealtimeRuns.ConnectionReports` proves when: the
  client of a connection that did not end normally gets an `error` event if and only if the socket itself did not break,
  in a receive or in a send. `RealtimeRuns.BrokenSocketIsSilent` is the shortest run that fails without one.
- `crates/impossible-voice-audio/src/lib.rs:358` says that streaming resampling produces the one-shot result.
  `Resampler.ResampleInPieces` proves it with its one exception: at equal rates the one-shot form returns its input
  without the length computation, so it accepts recordings whose length times the rate passes 64 bits, which the
  streaming form refuses. `Resampler.EqualRatesDiffer` is such a recording; no machine could hold it.
- A streaming `finish` and a batch `transcribe` give the same text when no utterance was closed, unless the whole
  recording is too much for one native call, in samples or in decoder steps: then the batch call fails
  (`SttEngineApi.BatchAgreesWithStream`). `LongSilence.BatchFailsWhereStreamAnswers` is a recording on which it does.
- On Unix an archive entry whose name contains a backslash is extracted but recorded with slashes instead. Such an
  extraction passes its own verification if and only if the recorded path happens to name a file of the archive (or its
  inventory) with the same size and digest (`Extraction.VerifiedIff`). `BackslashNames.NeverVerified` gives archives
  that extract and never verify, `BackslashNames.StillVerified` archives with a backslash that do.
- A verified object is not always left alone. `ArtifactStore.SetupRun.EnsureArtifact` proves when it is displaced: if
  and only if an operation fails while it is verified, and none fails before that or while it is moved to recovery.
  `Profile.OneFailureDisplaces` shows that one failing read is enough for any object, `Profile.LastingFailureKeeps` that
  it stays if everything fails from then on.
- Requests that still read their bodies hold admission permits, so more requests than the queue capacity can be
  admitted without executing; `Capacity.OthersExceedQueue` gives the exact number, and `Capacity.QueueIsExceeded` a run
  in which it is more than the capacity.

## Model

| member | source | states |
|---|---|---|
| Pcm.IncrementalPcm16.Push | crates/impossible-voice-audio/src/lib.rs:312-342 | a push is accepted exactly if the new total is admissible; then it returns the samples that the new bytes complete, whatever the alignment; a rejected push changes nothing |
| Pcm.IncrementalPcm16.Finish | crates/impossible-voice-audio/src/lib.rs:348-353 | finishing succeeds exactly if decoding all accepted bytes at once does under the same limits, and then gives the same audio |
| Pcm.DecodeInFrames | crates/impossible-voice-audio/src/lib.rs:312-353 | however a byte string is cut into frames, the decoder accepts and finishes it exactly if the one-shot form does, with the same audio, and has delivered exactly that audio on the way |
| Pcm.AcceptFramesSplitInvariant | crates/impossible-voice-audio/src/lib.rs:312-342 | any split of a byte string is accepted in full if and only if the whole is admissible |
| Pcm.AudioLimits.AdmitMonotone | crates/impossible-voice-audio/src/lib.rs:47-67 | a prefix of an admissible recording is admissible |
| Pcm.SamplesRefused | crates/impossible-voice-audio/src/lib.rs:104-119 | samples are refused for their rate, for being none, or for one out of range |
| Pcm.DecodingRefuses | crates/impossible-voice-audio/src/lib.rs:125-140 | decoding refuses exactly rates that are not supported, bytes that are no whole samples, more bytes than the bound and recordings longer than the duration; decoded samples are never at fault |
| Pcm.QuantizationError | crates/impossible-voice-audio/src/lib.rs:599-607 | quantizing an in-range sample moves it by at most 1/32768 |
| Pcm.QuantizationNearest | crates/impossible-voice-audio/src/lib.rs:599-607 | quantization rounds to the nearest level, halves away from zero; from half a step below the level that does not exist it clamps, and so it does out of range |
| Pcm.QuantizationFixed | crates/impossible-voice-audio/src/lib.rs:599-607 | every 16-bit value is a fixed point of decoding and quantizing |
| Pcm.ToPcm16 | crates/impossible-voice-audio/src/lib.rs:231-237 | the encoder loop writes the encoding of the samples, whose levels are the nearest ones |
| Pcm.DecodedLevel | crates/impossible-voice-audio/src/lib.rs:125-140 | the first byte of a pair counts ones, the second 256s and the sign |
| Pcm.EncodedExample | crates/impossible-voice-audio/src/lib.rs:231-237 | 0.1 and its negative, byte by byte |
| Pcm.DecodeEncodeAccuracy | crates/impossible-voice-audio/src/lib.rs:231-237 | encoding and decoding changes no sample by more than 1/32768 |
| Pcm.EncodeDecode | crates/impossible-voice-audio/src/lib.rs:125-140 | decoding an even byte string and encoding it again gives the same bytes |
| Resampler.AvailableIff | crates/impossible-voice-audio/src/lib.rs:408-412 | output `i` is computable from `n` inputs if and only if its source position is at most the last input: the streaming loop's test and the one-shot length agree |
| Resampler.LeftNeighbour | crates/impossible-voice-audio/src/lib.rs:211-225 | every index the interpolation reads is in bounds, and the last input is reached only with remainder zero |
| Resampler.Interpolates | crates/impossible-voice-audio/src/lib.rs:211-225 | an output that lies so many parts of the way from one input to the next has gone as much of the way between their values |
| Resampler.RampIsKept | crates/impossible-voice-audio/src/lib.rs:198-227 | a ramp is reproduced at every pair of rates |
| Resampler.TapStable | crates/impossible-voice-audio/src/lib.rs:388-427 | an output computed from a prefix never changes when more input arrives, also where its right neighbour was clamped |
| Resampler.ResampledInRange | crates/impossible-voice-audio/src/lib.rs:198-227 | resampling keeps samples within [-1, 1], so validation cannot reject the result |
| Resampler.OutputLengthBounds | crates/impossible-voice-audio/src/lib.rs:203-209 | (out-1)*source <= (in-1)*target < out*source |
| Resampler.UpThenDown | crates/impossible-voice-audio/src/lib.rs:198-227 | resampling up by an integer factor and back down is the identity |
| Resampler.Resample | crates/impossible-voice-audio/src/lib.rs:198-227 | the loop computes linear interpolation at every output position, or fails exactly on unsupported rates and overflow |
| Resampler.StreamingResampler.Push | crates/impossible-voice-audio/src/lib.rs:388-427 | a push returns what the longer input adds to the one-shot result; an empty or invalid piece is refused with the state unchanged, a too large one after the input was retained, as in the source |
| Resampler.ResampleInPieces | crates/impossible-voice-audio/src/lib.rs:356-427 | for every pair of rates and every split into non-empty pieces the streamed outputs concatenate to the one-shot result; the equal-rate overflow is the only difference |
| Resampler.EqualRatesDiffer | crates/impossible-voice-audio/src/lib.rs:198-227 | a recording that shows this difference, which no machine could hold |
| Vad.EnergyVad.Process | crates/impossible-voice-audio/src/lib.rs:505-540 | the transition is the one the history of frames calls for, and the counters equal trailing voiced run, trailing unvoiced run and utterance length of that history |
| Vad.Tuning.LoudIsVoiced | crates/impossible-voice-audio/src/lib.rs:505-520 | a frame nowhere below the threshold is voiced, one everywhere below it is not |
| Vad.Tuning.BurstIsVoiced | crates/impossible-voice-audio/src/lib.rs:505-520 | it is the mean energy that counts: a burst in silence is voiced exactly if it is as strong as it is short |
| Vad.Tuning.NextFrameLasts | crates/impossible-voice-audio/src/lib.rs:505-553 | one more frame opens or closes an utterance exactly if its run, or its length, has lasted the configured milliseconds |
| Vad.Tuning.SpeechOpens | crates/impossible-voice-audio/src/lib.rs:505-553 | speech opens an utterance exactly if it lasts `min_speech_ms` |
| Vad.Tuning.SpeechThenSilence | crates/impossible-voice-audio/src/lib.rs:505-553 | after speech, silence closes the utterance exactly when it has lasted `trailing_silence_ms`, or both together `max_utterance_ms` |
| Vad.Tuning.SpeechWithoutPause | crates/impossible-voice-audio/src/lib.rs:505-553 | speech without a pause is closed exactly at `max_utterance_ms` |
| Vad.Tuning.OnsetIsEarliest | crates/impossible-voice-audio/src/lib.rs:505-540 | an utterance opens at the earliest frame at which speech has lasted long enough, and not otherwise |
| Vad.Tuning.EventsAlternate | crates/impossible-voice-audio/src/lib.rs:505-540 | Started and Ended strictly alternate over any run |
| Vad.Tuning.ClosedUtteranceIsBounded | crates/impossible-voice-audio/src/lib.rs:505-540 | with frames of at most F samples an ended utterance has at most max(min-1+F, max-1)+F samples |
| Vad.Tuning.OpenUtteranceIsBounded | crates/impossible-voice-audio/src/lib.rs:505-540 | over any run, an open utterance gets its Ended by the time the maximum length more audio has arrived |
| Transcription.FramesConserve | crates/impossible-voice-stt/src/lib.rs:303-340 | frames and residual together are the recording |
| Transcription.FrameIs | crates/impossible-voice-stt/src/lib.rs:303-311 | a frame is 320 samples, 20 ms at 16 kHz, and the frames follow one another |
| Transcription.Setup.UpdatesPrefix | crates/impossible-voice-stt/src/lib.rs:298-341 | more audio never retracts or rewrites an update |
| Transcription.Setup.ProgressStep | crates/impossible-voice-stt/src/lib.rs:312-338 | what one frame does to utterances, streams and updates in the chunk-free description is what the frame loop does |
| Transcription.Setup.SamplesConserved | crates/impossible-voice-stt/src/lib.rs:303-340 | the audio of all recognizer streams in order, then the residual, is the converted recording |
| Transcription.Setup.FinishTotal | crates/impossible-voice-stt/src/lib.rs:347-372 | `finish` succeeds if and only if the byte count is even and not zero; the missing-final fallback is unreachable |
| Transcription.Setup.FinishMatchesBatch | crates/impossible-voice-stt/src/lib.rs:347-372 | if no utterance closed, `finish` gives the text of the whole recording |
| Transcription.Setup.UpdatesByUtterance | crates/impossible-voice-stt/src/lib.rs:311-339 | updates come utterance by utterance: its interims, then its one final, then the open interims |
| Transcription.Setup.InterimsDiffer | crates/impossible-voice-stt/src/lib.rs:329-338 | within an utterance interims are not empty and consecutive ones differ, and the session's last interim is the latest of them |
| Transcription.Setup.ClientIsUpToDate | crates/impossible-voice-stt/src/lib.rs:311-339 | after every frame that closes no utterance, the latest update is an interim with the current hypothesis, if there is one |
| Transcription.Setup.FinalsMatchUtterances | crates/impossible-voice-stt/src/lib.rs:318-328 | there is one final per Ended transition, with the text of the utterance that ended |
| Transcription.Setup.PushAllAccepts | crates/impossible-voice-stt/src/lib.rs:298-302 | chunks of legal size are all accepted if and only if the whole recording is acceptable |
| Transcription.Setup.RunStreamIsTranscribed | crates/impossible-voice-stt/src/lib.rs:514-531 | pushing chunks and finishing gives the transcription of their concatenation, errors included |
| Transcription.Setup.ChunkSplitInvariance | crates/impossible-voice-stt/src/lib.rs:498-512 | two splits of the same bytes give the same updates, the same final and the same error |
| Stt.StreamingSession.PushPcm16 | crates/impossible-voice-stt/src/lib.rs:298-341 | whatever is stopped or fails, an answer is what the bytes so far call for, and stream discipline is kept, by the call that fails too: no stream is used after it was finished, each earlier one was finished exactly once; a request stopped before the call, or by the time it would answer, gets no answer; undisturbed, decoder, resampler, residual, detector and recognizer stream stay coupled to the bytes |
| Stt.StreamingSession.Finish | crates/impossible-voice-stt/src/lib.rs:347-372 | `finish` answers what the accepted bytes call for; for every environment no stream is used after it was finished, each earlier one was finished exactly once, on success the current one exactly if it has heard audio, and the permit is given back |
| Stt.StreamingSession.EndUtterance | crates/impossible-voice-stt/src/lib.rs:318-328 | at the end of an utterance its stream is finished exactly once and replaced by an open one that has heard nothing |
| SttEngineApi.SttEngine.Transcribe | crates/impossible-voice-stt/src/lib.rs:211-231 | a batch call answers for the whole recording, never on a request stopped before it or by its end, and returns its permit on every path |
| SttEngineApi.SttEngine.StartStream | crates/impossible-voice-stt/src/lib.rs:237-261 | an opened session holds one permit, a failed call none |
| SttEngineApi.BatchRefuses | crates/impossible-voice-stt/src/lib.rs:211-231 | a batch call refuses as bad audio exactly what is beyond the limits or the resampler |
| SttEngineApi.NativeLength | crates/impossible-voice-sherpa-sys/src/lib.rs:514-533 | one call takes at most 2^31 - 1 samples |
| SttEngineApi.BatchAgreesWithStream | crates/impossible-voice-stt/src/lib.rs:211-231 | when no utterance closes, batch gives the streaming text if the whole recording fits one native call, in samples and decoder steps, and fails otherwise |
| LongSilence.BatchFailsWhereStreamAnswers | crates/impossible-voice-stt/src/lib.rs:211-231 | six seconds of silence, a recognizer that keeps up with frames, and a batch call that fails on them |
| SttEngineApi.RunToEnd | crates/impossible-voice-stt/src/lib.rs:514-531 | a client that gets an answer from a real session object got exactly the transcription of its chunks, and undisturbed it gets exactly that outcome; in every environment stream discipline holds at the end and the permit is back |
| Wav.WalkRendered | crates/impossible-voice-audio/src/lib.rs:159-188 | the chunk walk visits exactly the chunks of a rendered chunk list, padding included |
| Wav.ParseOfFile | crates/impossible-voice-audio/src/lib.rs:146-192 | for any list of chunks in any order the parser answers with the first data chunk at the rate of the first format chunk |
| Wav.AcceptedIsFile | crates/impossible-voice-audio/src/lib.rs:146-192 | conversely an accepted byte string is the rendering of such a list |
| Wav.OneFormat | crates/impossible-voice-audio/src/lib.rs:576-597 | the reader takes exactly one format chunk for each rate: PCM, one channel, 16 bits, with the byte rate and block size that follow |
| Wav.FileIsRefused | crates/impossible-voice-audio/src/lib.rs:146-158 | a file beyond the byte bound, or not of the length it declares, is refused whatever it holds |
| Wav.FileExample | crates/impossible-voice-audio/src/lib.rs:243-269 | a file of one sample, byte by byte |
| Wav.FromWav | crates/impossible-voice-audio/src/lib.rs:146-192 | the loop computes that walk and terminates |
| Wav.ToWav | crates/impossible-voice-audio/src/lib.rs:243-269 | the writer produces the file of one format and one data chunk, or refuses exactly what RIFF lengths cannot hold |
| Wav.WavRoundTrip | crates/impossible-voice-audio/src/lib.rs:243-269 | within limits, reading a written file gives the quantized audio, which encodes to the same PCM |
| VoiceBackend.PushExtends | crates/impossible-voice-server/src/voice_api.rs:56-66 | a successful push through the backend extends the updates of the audio before it to those of the audio after it |
| VoiceBackend.StartFails | crates/impossible-voice-server/src/voice_api.rs:101-110 | without a failure of the environment a session is refused exactly for an unsupported rate, as an invalid request |
| VoiceBackend.PushFails | crates/impossible-voice-server/src/voice_api.rs:101-110 | and a push only as an invalid request |
| VoiceBackend.FinishFails | crates/impossible-voice-server/src/voice_api.rs:101-110 | and a finish exactly for an odd or empty recording, as an invalid request |
| VoiceBackend.ErrorsKeepTheirKind | crates/impossible-voice-server/src/voice_api.rs:101-110 | an engine error keeps its kind, and audio that is none is an invalid request |
| Realtime.RunKeeps | crates/impossible-voice-server/src/voice_api.rs:541-792 | over every run a transcriber is open exactly while an STT session is not completed, a pending declaration implies one and is within the limit, and the trace stays in the protocol's language |
| RealtimeRuns.ReadyComesFirst | crates/impossible-voice-server/src/voice_api.rs:604-630 | `session_ready` comes at most once and before every transcript and speech event |
| RealtimeRuns.CompletedFollowsFinal | crates/impossible-voice-server/src/voice_api.rs:639-663 | `session_completed` comes at most once, directly after a final transcript, and no transcript follows it |
| RealtimeRuns.SpeechIsContiguous | crates/impossible-voice-server/src/voice_api.rs:733-766 | speech metadata, chunks and `speech_completed` form one uninterrupted block |
| RealtimeRuns.NothingFollowsTheEnd | crates/impossible-voice-server/src/voice_api.rs:541-592 | nothing follows an `error` or `cancelled` event in the loop |
| RealtimeRuns.ObservedIsWellFormed | crates/impossible-voice-server/src/voice_api.rs:499-539 | every connection delivers a word of the language, cut only by the deadline or a failing send, then at most one close frame, which is last and arrives if and only if its send succeeds |
| RealtimeRuns.FailureIsReported | crates/impossible-voice-server/src/voice_api.rs:541-592 | a loop that fails has sent an error event last, whose code decides the close status, if and only if it did not fail in a receive |
| RealtimeRuns.ConnectionReports | crates/impossible-voice-server/src/voice_api.rs:499-539 | a connection that did not end normally delivers an error event, with the code of its close status, if and only if the socket broke neither in a receive nor in a send; one that ended normally delivers none |
| RealtimeRuns.DeadlineIsReported | crates/impossible-voice-server/src/voice_api.rs:513-520 | a session cut by its deadline says `deadline_exceeded` and closes with 1008 |
| RealtimeRuns.BrokenSocketIsSilent | crates/impossible-voice-server/src/voice_api.rs:548-549 | a run that fails without an error event: the socket breaks at once |
| RealtimeRuns.RunTells | crates/impossible-voice-server/src/voice_api.rs:563-584 | the transcripts sent in any run are exactly the updates of the audio accepted, and its final once completed |
| RealtimeOrder.OrderIsEnforced | crates/impossible-voice-server/src/voice_api.rs:595-792 | told from the start and the events sent so far: a client event out of order, and only one out of order, ends the session with `invalid_sequence` |
| RealtimeOrder.StartsAsAsked | crates/impossible-voice-server/src/voice_api.rs:602-630 | a recognition session needs a sample rate, a synthesis session must not have one, and each is answered by `session_ready` |
| RealtimeOrder.PlainEvents | crates/impossible-voice-server/src/voice_api.rs:767-792 | a ping is answered by a pong, a cancel by `cancelled` and the end, a close by the end alone |
| RealtimeOrder.DeclarationWaits | crates/impossible-voice-server/src/voice_api.rs:631-638 | an accepted declaration is answered by nothing and makes a frame due |
| RealtimeOrder.FramesAreDeclared | crates/impossible-voice-server/src/voice_api.rs:548-592 | a due frame must come next in its declared size, no frame comes without a declaration, and each breach has its code |
| RealtimeOrder.SpeechIsSpoken | crates/impossible-voice-server/src/voice_api.rs:664-766 | whatever pings come between, a synthesis session answers `session_ready`, the pings, the metadata, bounded chunks that concatenate to the synthesized audio, and `speech_completed`; a failing synthesis ends it with its error |
| RealtimeOrder.SpeechIsInterrupted | crates/impossible-voice-server/src/voice_api.rs:676-732 | while a synthesis runs, a cancel ends the session with `cancelled`, a close or a broken socket silently, and everything else but pings with an error |
| RealtimeAudio.GuardsNeverFire | crates/impossible-voice-server/src/voice_api.rs:563-575 | the guards for a missing transcriber and an oversized declaration are unreachable; `stt_session_required` is never sent |
| RealtimeAudio.PushedAsDeclared | crates/impossible-voice-server/src/voice_api.rs:563-584 | the frames pushed are exactly the declared ones, in order and of the declared sizes |
| RealtimeLoop.SessionState.HandleClientEvent | crates/impossible-voice-server/src/voice_api.rs:595-792 | the handler goes on only where the protocol run goes on, returns only if the run has or nothing more arrives, fails only if the run has or a send failed, and is dropped only by the deadline; it takes what arrives in order (`RealtimeOrder` says what that run is) |
| RealtimeLoop.SessionState.Generate | crates/impossible-voice-server/src/voice_api.rs:664-766 | the same for the synthesis arm, over everything that arrives while the worker runs |
| RealtimeLoop.SessionState.Loop | crates/impossible-voice-server/src/voice_api.rs:541-592 | the receive loop reads what arrives in order until the protocol run ends, nothing more arrives, a send fails or the deadline strikes, and no further |
| RealtimeLoop.WebsocketSession | crates/impossible-voice-server/src/voice_api.rs:499-539 | what is read and how the connection ends is the outcome for what arrives, the deadline and the failing sends; what gets through is exactly the output of that outcome with its close status |
| RealtimeRuns.OutcomeIsUnique | crates/impossible-voice-server/src/voice_api.rs:499-539 | there is only one such outcome |
| Grpc.RunShapes | crates/impossible-voice-server/src/grpc.rs:95-202 | at every loop head nothing is committed; a call ends with a final transcript after a commit, with one error status as its last item, or silently after a cancel |
| Grpc.RunTells | crates/impossible-voice-server/src/grpc.rs:122-187 | the transcripts sent are exactly the updates of the audio accepted, and the final one if it was committed |
| GrpcOrder.OrderIsEnforced | crates/impossible-voice-server/src/grpc.rs:122-187 | told from the messages alone: a message out of order ends the call with `INVALID_ARGUMENT`, a cancel ends it silently, a commit ends it with the final transcript or the backend's error, and configuration or audio end it only with the backend's error |
| GrpcOrder.OtherEnds | crates/impossible-voice-server/src/grpc.rs:100-202 | a stream that ends without a commit, a broken one, a stop and a deadline each end the call with their own status |
| GrpcOrder.ErrorsAgree | crates/impossible-voice-server/src/grpc.rs:332-345 | each backend error has a WebSocket code and a gRPC status, which correspond |
| Grpc.StreamTranscribe | crates/impossible-voice-server/src/grpc.rs:95-202 | the loop over its local state sends exactly what the arrivals call for |
| Grpc.ClientSeesTheRun | crates/impossible-voice-server/src/grpc.rs:94-202 | under every interleaving the client has received a prefix of the items, the queue never holds more than 8, and once nothing is in flight it has received all of them |
| Grpc.SendsWhileThereIsRoom | crates/impossible-voice-server/src/grpc.rs:94-202 | a send goes through exactly while the client reads and fewer than eight items wait |
| Grpc.ReadingDrains | crates/impossible-voice-server/src/grpc.rs:144-157 | a client that goes on reading, however slowly, receives every item |
| Agreement.SameAudioSameTranscripts | crates/impossible-voice-server/src/voice_api.rs:563-584 | any WebSocket run and any gRPC run that accepted the same audio at the same rate and both did or did not get to the end sent the same transcripts |
| Agreement.TransportsAgree | crates/impossible-voice-server/src/grpc.rs:122-187 | a recording sent over either transport under any legal framing gives the transcripts of the recording, or the same backend error in each transport's terms |
| Speech.TtsEngine.Synthesize | crates/impossible-voice-tts/src/lib.rs:244-274 | audio is returned only if the request was live before and after the native call; the permit is returned on every path |
| Speech.PlainTextIsSpeakable | crates/impossible-voice-tts/src/lib.rs:244-256 | printable text within the bound is accepted at every speed from half to double |
| Speech.OtherTextIsRefused | crates/impossible-voice-tts/src/lib.rs:244-256 | white space alone, a NUL anywhere, more bytes than the bound and any other speed are refused |
| Speech.Utf8OfOne | crates/impossible-voice-tts/src/lib.rs:250-252 | the bound counts bytes of UTF-8, one to four for each character |
| Speech.WhitespaceIs | crates/impossible-voice-tts/src/lib.rs:250-252 | which characters are white space |
| Speech.SpokenIsGenerated | crates/impossible-voice-tts/src/lib.rs:257-274 | the voice's audio is handed out as it is, exactly if it is within the bound and valid |
| Speech.TransportChunksPartition | crates/impossible-voice-tts/src/lib.rs:182-193 | transport chunks partition the audio into bounded, non-empty pieces with exactly the last marked final |
| Speech.StreamSynthesize | crates/impossible-voice-server/src/grpc.rs:254-281 | the chunk loop sends the numbered chunks in order until they end, overflow or the client goes away |
| Speech.SpeechIsDelivered | crates/impossible-voice-server/src/grpc.rs:252-281 | WebSocket and gRPC chunks each concatenate to the synthesized audio, the latter if and only if they can be numbered in 32 bits |
| LimiterSteps.AnswersAreAtomic | crates/impossible-voice-stt/src/lib.rs:138-145 | each answer of the compare-exchange loop is that of an atomic test-and-increment at that moment, whatever other threads did in between and however often the weak exchange fails |
| LimiterSteps.AlwaysBounded | crates/impossible-voice-tts/src/lib.rs:103-120 | in every interleaving the counter is the number of live permits, between zero and the maximum |
| Capacity.AlwaysSound | crates/impossible-voice-server/src/lib.rs:406-507 | every step of every party keeps each request at one place and every permit accounted for |
| Capacity.TotalIsSum | crates/impossible-voice-server/src/lib.rs:286-291 | there is an admission permit for each slot and each place in the queue, unless the sum overflows |
| Capacity.AdmissionIsBounded | crates/impossible-voice-server/src/lib.rs:286-291 | executing requests are admitted and at most the limit; when all slots execute at most the queue capacity is admitted besides; nobody waits for a free slot; when all have left both semaphores are full |
| Capacity.OverloadIsExact | crates/impossible-voice-server/src/lib.rs:418-424 | a request is answered "overloaded" exactly when every admission permit is taken |
| Capacity.RequestGoesThrough | crates/impossible-voice-server/src/lib.rs:406-485 | a request that arrives when there is room is admitted, and executes as soon as its body is read if a slot is free, or waits behind those that wait |
| Capacity.RequestLeaves | crates/impossible-voice-server/src/lib.rs:486-507 | one that finishes hands its slot to the one that has waited longest, one that leaves gives its permit back |
| Capacity.StoppingAdmitsNobody | crates/impossible-voice-server/src/lib.rs:411-417 | after a stop nobody is admitted any more and every new request is answered "cancelled" |
| Capacity.NativeLifecycle | crates/impossible-voice-stt/src/lib.rs:137-154 | sessions and native work are there from their start to their end, and a session opens only in an executing request |
| Capacity.NoOvertaking | crates/impossible-voice-server/src/lib.rs:469-485 | waiting requests get execution slots in the order in which they began to wait |
| Capacity.NativeWorkIsBounded | crates/impossible-voice-stt/src/lib.rs:137-154 | in every reachable state the live native work of an engine, from all transports and also when it began after its origin had left, is its counter and within its limit, and it refuses exactly at the limit |
| Capacity.WorkOutlivesRequests | crates/impossible-voice-server/src/lib.rs:487-500 | native work survives the requests that started it: with both semaphores full any number up to the limit can still be running |
| Capacity.OthersExceedQueue | crates/impossible-voice-server/src/lib.rs:286-291 | exactly how many admitted requests do not execute: the queue capacity plus the free slots less the free admission permits |
| Capacity.QueueIsExceeded | crates/impossible-voice-server/src/lib.rs:286-291 | a run in which more requests than the queue capacity are admitted without executing |
| Paths.ComponentsOfJoin | crates/impossible-voice-artifacts/src/lib.rs:786-796 | joining names and taking the components of the path gives the names back |
| Paths.StrippedNames | crates/impossible-voice-artifacts/src/lib.rs:770-784 | whatever an archive path says, what is left below the root consists of plain names |
| Paths.EscapesAreRefused | crates/impossible-voice-artifacts/src/lib.rs:770-784 | an archive path is accepted exactly if it is relative, starts with the root's name and nowhere goes up |
| Paths.SafeIff | crates/impossible-voice-artifacts/src/lib.rs:786-796 | an inventory path is accepted exactly if it is not empty, relative, does not start with a dot and nowhere goes up |
| Paths.PathExample | crates/impossible-voice-artifacts/src/lib.rs:770-784 | repeated separators and dots inside a path do not count |
| Trees.InventoryFiles | crates/impossible-voice-artifacts/src/lib.rs:730-768 | the worklist terminates; it succeeds exactly if the tree holds only files and directories and no read failed, with exactly the files of the tree |
| Artifacts.VerifyFile | crates/impossible-voice-artifacts/src/lib.rs:538-561 | a file passes if and only if it is there, has the recorded size and digest, and no operation failed |
| Artifacts.VerifyObject | crates/impossible-voice-artifacts/src/lib.rs:690-728 | an object passes if and only if its inventory is this artifact's, matches every file there is by size and digest, all required paths exist, and no operation failed |
| Artifacts.VerifiedMeansUntouched | crates/impossible-voice-artifacts/src/lib.rs:690-728 | with its inventory in place, a verified object is still verified exactly if it holds only files and directories, has the same files and the required paths, and every file has the same size and digest |
| Artifacts.AddedFileIsRefused | crates/impossible-voice-artifacts/src/lib.rs:708-718 | a file that is not listed makes it refused |
| Artifacts.RemovedFileIsRefused | crates/impossible-voice-artifacts/src/lib.rs:703-712 | so does a listed file that is missing |
| Artifacts.ChangedFileIsRefused | crates/impossible-voice-artifacts/src/lib.rs:538-561 | and new content for a listed file, exactly if it has another size or digest |
| Artifacts.LinkIsRefused | crates/impossible-voice-artifacts/src/lib.rs:730-768 | and anything that is neither a file nor a directory |
| Artifacts.MissingPathIsRefused | crates/impossible-voice-artifacts/src/lib.rs:719-726 | and a required path that is missing |
| Artifacts.SlashNeedsDirectory | crates/impossible-voice-artifacts/src/lib.rs:719-726 | a path with a slash at its end is not that of a file |
| Artifacts.OtherSchemaIsRefused | crates/impossible-voice-artifacts/src/lib.rs:694-702 | an object with an inventory of another schema is refused |
| Artifacts.OneArtifact | crates/impossible-voice-artifacts/src/lib.rs:695-702 | no object is verified for two artifact ids or two archives |
| Extraction.WriteExtractedFile | crates/impossible-voice-artifacts/src/lib.rs:640-688 | a file is written exactly if its entry can be read, its place is free, the running total stays within the bound and no operation fails; it then holds exactly the entry's bytes |
| Extraction.NothingIsReplaced | crates/impossible-voice-artifacts/src/lib.rs:640-652 | a written file replaces nothing, and adds nothing else but directories above it |
| Extraction.SortSorts | crates/impossible-voice-artifacts/src/lib.rs:616 | the inventory is in path order |
| Extraction.AtMostIff | crates/impossible-voice-artifacts/src/lib.rs:616 | that order is the lexicographic one |
| Extraction.ExtractVerifiedArchive | crates/impossible-voice-artifacts/src/lib.rs:563-636 | an extraction succeeds exactly if the archive is the curated one, its entries can be laid out, are within the bounds and recorded under different paths, and no operation failed, the reads of the archive and the synchronization of files included; it leaves exactly the tree these entries call for, with their inventory |
| Extraction.EntriesAreSafe | crates/impossible-voice-artifacts/src/lib.rs:579-613 | every entry of an archive that can be extracted is readable, below the root, and a file or a directory |
| Extraction.FilesAreApart | crates/impossible-voice-artifacts/src/lib.rs:577-620 | such an archive has at most 16384 entries and at least one file, is within the size bound, and no two of its files differ in ASCII case only |
| Extraction.LoweredIff | crates/impossible-voice-artifacts/src/lib.rs:602-608 | two collision keys are equal exactly if the paths differ in nothing but the case of ASCII letters |
| Extraction.VerifiedIff | crates/impossible-voice-artifacts/src/lib.rs:690-728 | an extraction passes verification if and only if every required path exists and, for each file with a backslash in its path, the recorded path names a file of the archive or the inventory with the same size and digest |
| Extraction.ExtractedIsVerified | crates/impossible-voice-artifacts/src/lib.rs:690-728 | where no name has a backslash the required paths alone decide |
| Extraction.InstallableIff | crates/impossible-voice-artifacts/src/lib.rs:563-636 | whether an archive can be installed, told from its entries: it can be extracted, its tree has every required path, and every file with a backslash in its path is found as recorded |
| BackslashNames.NeverVerified | crates/impossible-voice-artifacts/src/lib.rs:591-594 | archives that can be extracted, and of which no extraction is ever verified |
| BackslashNames.StillVerified | crates/impossible-voice-artifacts/src/lib.rs:591-594 | archives with a backslash in a name that can be extracted and are verified like any other |
| ArtifactStore.ObjectNamesDiffer | crates/impossible-voice-artifacts/src/lib.rs:422-426 | artifacts with different ids never share an object path |
| ArtifactStore.NamesExample | crates/impossible-voice-artifacts/src/lib.rs:299-302 | the names of an object, an archive and a partial download |
| ArtifactStore.RecoversSafely | crates/impossible-voice-artifacts/src/lib.rs:798-812 | moving an invalid tree to recovery loses nothing |
| ArtifactStore.SetupRun.Change | crates/impossible-voice-artifacts/src/lib.rs:280-359 | one atomic change of the disk or a failure; every disk a crash could have left since the run began is valid, safe relative to the one it began with, and one a new run can start from |
| ArtifactStore.SetupRun.RecoverStaging | crates/impossible-voice-artifacts/src/lib.rs:342-355 | a staging directory that failed extraction or verification is moved to recovery whole or stays, and it is moved if no operation fails |
| ArtifactStore.BadTransfers | crates/impossible-voice-artifacts/src/lib.rs:361-420 | a transfer that is refused, cut short, announced with another size, or not the curated bytes, delivers nothing |
| ArtifactStore.SetupRun.Download | crates/impossible-voice-artifacts/src/lib.rs:361-420 | an archive is in place only if it was delivered with the curated size and digest; if none was in place and no operation fails, a download succeeds exactly if that is delivered |
| ArtifactStore.SetupRun.EnsureArtifact | crates/impossible-voice-artifacts/src/lib.rs:280-359 | success means a verified object; "already verified" is answered if and only if the object was verified and no operation failed; without failures the call succeeds if and only if the object was verified or, online, an installable archive is in place or delivered; a verified object is displaced, into recovery, exactly if an operation fails during its verification and none before it or in the recovery; offline nothing is downloaded or staged; other objects and archives are untouched |
| ArtifactStore.TrustStays | crates/impossible-voice-artifacts/src/lib.rs:280-359 | safe changes keep every object under a curated name verified |
| ArtifactStore.SafeTrans | crates/impossible-voice-artifacts/src/lib.rs:280-359 | safe changes compose: what one keeps, moves to recovery or replaces by the curated archive, a later one cannot lose |
| Artifacts.BadArtifactIsRefused | crates/impossible-voice-artifacts/src/lib.rs:463-497 | an artifact description that lacks something, or names something outside the object, is refused |
| Profile.BadManifestIsRefused | crates/impossible-voice-artifacts/src/lib.rs:432-461 | and a manifest of another schema or profile, or with an id twice |
| Profile.SelectedExactly | crates/impossible-voice-artifacts/src/lib.rs:499-506 | the artifacts selected are those for the platform, in order |
| Profile.SelectionIsComplete | crates/impossible-voice-artifacts/src/lib.rs:507-526 | a profile is complete with exactly one runtime, one speech model and one voice model and nothing else |
| Profile.Setup | crates/impossible-voice-artifacts/src/lib.rs:193-227 | success means every selected object is verified; without failures it comes if and only if every artifact is verified or, online, has an installable archive in place or delivered; everything is found verified, and nothing changes, if and only if the store was ready and no operation failed; offline no other setup succeeds |
| Profile.LoadVerifiedProfile | crates/impossible-voice-artifacts/src/lib.rs:270-278 | the profile loads if and only if the object of every selected artifact is verified and no operation failed, with the paths of those objects |
| Profile.SetupTwice | crates/impossible-voice-artifacts/src/lib.rs:193-227 | after a successful setup the profile loads exactly if no operation fails, and then a second setup succeeds offline exactly if no operation fails, changing nothing |
| Profile.OneFailureDisplaces | crates/impossible-voice-artifacts/src/lib.rs:286-297 | any verified object is displaced by an offline setup of it in which only the first read of its verification fails |
| Profile.LastingFailureKeeps | crates/impossible-voice-artifacts/src/lib.rs:286-297 | it stays if everything fails from then on |
| Profile.SurviveCrashes | crates/impossible-voice-artifacts/src/lib.rs:280-359 | after any number of runs with any faults and downloads, each completed, failed or cut after any step, the disk is valid, curated objects are verified, what was displaced is in recovery, and setup can start again: one undisturbed run then makes the whole profile ready |

## Left out

- Floating point: samples are real numbers, so rounding of `f32` is not modelled. The detector compares the mean square with the squared threshold instead of taking a square root.
- The native recognizer and synthesizer: a recognizer is a function of the audio a stream has accepted, a synthesizer a function of its text and speed, and either may fail at any call.
- A session after an error: `PushPcm16` and `Finish` say what is answered and that stream discipline holds up to and including the first call that fails half way, but not what a further push on that session would answer, since both transports drop it.
- A send that fails after part of it reached the client: a send gets through or it does not.
- A synthesis whose worker is still running when the WebSocket session ends: the session's own permit and the engine's permit are in `Capacity.dfy`, not the worker's thread.
- HTTP routes, multipart and header decoding, JSON encoding, the MCP dispatch table, health and metrics, command line and configuration: routing and constant tables with only easy properties.
- The shutdown gate, request ids and request contexts come from a crate whose source is not part of the repository's own crates; stops and deadlines are parameters here.
- tokio's limit on the number of semaphore permits, which would abort the server at start for absurdly large configured limits.
- Fairness beyond the order of waiting: a request that stays in the middleware forever is not excluded.
- Extraction.ExtractedIsVerified: is about archives whose names have no backslash; `Extraction.VerifiedIff` is the exact condition for all names. Path rules are those of Unix.
- Symbolic links inside an installed object are modelled as entries that make verification fail; a store entry that is itself a link is not modelled.
- Error messages of the artifact store: outcomes are success or failure.
- The process id and time in the names of recovery, staging and partial entries are assumed never to repeat, since a repeated one could overwrite a recovered file.
- Power failures: a crash ends the program, and what it had written stays written.
- Worker threads that panic.
- ArtifactStore.SetupRun.Download: a partial download is not among what `Safe` keeps, an archive may be replaced by the curated one, and an empty directory at an object path by the object.
- URL and origin checks, redirects and timeouts of downloads: a download delivers arbitrary bytes or fails.
- `status` of the artifact store, which reports per artifact what `LoadVerifiedProfile` decides for all of them.
