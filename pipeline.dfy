/** The clip pipeline as functions over the observable world: the storage
    bucket, the working directory and the calls made to the outside. The
    methods of `ClipperFunction` are proved to change the world exactly as
    these functions say; the lemmas below state what the pipeline promises. */
module Pipeline {
  import opened JavaStrings
  import opened Validation
  import opened Naming
  import opened Batch

  /** A call the clipper makes to code outside the model, in call order. */
  datatype Event =
    | Resolve(video: string)                    // `getVideo` for this video
    | Download(object: string)                  // source object fetched into the working directory
    | Lookup(object: string)                    // `storage.get(bucket, name)`
    | Ffmpeg(video: string, from: int, to: int) // ffmpeg launched for this range
    | Upload(object: string)                    // `storage.createFrom` with the does-not-exist precondition
    | Delete(file: string)                      // `Files.deleteIfExists` on the local clip

  /** How an ffmpeg run ends, as the clipper sees it. */
  datatype FfmpegOutcome =
    | Failed            // launching, reading its output or waiting threw
    | TimedOut          // `waitFor(timeout)` returned false
    | Exited(code: int) // the process exited in time with this code

  /** The answers of the code outside the model. */
  datatype Env = Env(
    ffmpeg: (string, int, int) -> FfmpegOutcome, // the run for (video, from, to)
    uploadFails: string -> bool,                 // `createFrom` throws an IOException for this object
    deleteFails: string -> bool)                 // `deleteIfExists` throws an IOException for this file

  /** Object names in the bucket, file names in the working directory, and
      the calls made so far. */
  datatype World = World(bucket: set<string>, files: set<string>, trace: seq<Event>)

  /** The result of one part: the world after it and its response. */
  datatype Step = Step(world: World, response: PartResponse)

  /** The result of several parts: the world after them and their responses. */
  datatype Run = Run(world: World, responses: seq<PartResponse>)

  // ---------------------------------------------------------------------------
  // The steps
  // ---------------------------------------------------------------------------

  /** `getVideo`: download the source into the working directory unless a
      file of that name is already there. */
  function GetVideoSpec(w: World, video: string): (w': World)
    ensures w'.bucket == w.bucket
    ensures w'.files == w.files + {SourceFileName(video)}
  {
    var file := SourceFileName(video);
    if file in w.files then w.(trace := w.trace + [Resolve(video)])
    else w.(files := w.files + {file}, trace := w.trace + [Resolve(video), Download(SourceObjectName(video))])
  }

  /** `getVideo` appends its calls to the trace, and downloads the source
      exactly when no file of its name is in the working directory. */
  lemma {:induction false} GetVideoDownloadsWhenAbsent(w: World, video: string)
    ensures var t := GetVideoSpec(w, video).trace;
            && |w.trace| < |t| && t[..|w.trace|] == w.trace
            && (Download(SourceObjectName(video)) in t[|w.trace|..] <==> SourceFileName(video) !in w.files)
  {
    var t := GetVideoSpec(w, video).trace;
    if SourceFileName(video) in w.files {
      assert t[|w.trace|..] == [Resolve(video)];
    } else {
      assert t[|w.trace|..] == [Resolve(video), Download(SourceObjectName(video))];
    }
  }

  /** `uploadPart`: create the clip object if absent, from the local clip
      file, then delete that file. Any IOException makes it answer false. */
  function UploadSpec(w: World, video: string, from: int, to: int, env: Env): (u: (World, bool))
    requires PartObjectName(video, from, to) !in w.bucket
    ensures w.bucket <= u.0.bucket <= w.bucket + {PartObjectName(video, from, to)}
    ensures u.0.files <= w.files
  {
    var name, file := PartObjectName(video, from, to), PartFileName(video, from, to);
    var attempted := w.(trace := w.trace + [Upload(name)]);
    if file !in w.files || env.uploadFails(name) then (attempted, false)
    else
      var created := attempted.(bucket := w.bucket + {name}, trace := attempted.trace + [Delete(file)]);
      if env.deleteFails(file) then (created, false)
      else (created.(files := w.files - {file}), true)
  }

  /** The upload answers true exactly when the clip file exists and neither
      `createFrom` nor `deleteIfExists` throws; on true the bucket gains the
      clip and the file is gone; when `createFrom` throws, the file is left
      in place and the bucket unchanged; when only `deleteIfExists` throws,
      the clip is stored all the same. */
  lemma {:induction false} UploadOutcome(w: World, video: string, from: int, to: int, env: Env)
    requires PartObjectName(video, from, to) !in w.bucket
    ensures var u := UploadSpec(w, video, from, to, env);
            var name, file := PartObjectName(video, from, to), PartFileName(video, from, to);
            && (u.1 <==> file in w.files && !env.uploadFails(name) && !env.deleteFails(file))
            && (u.1 ==> u.0.bucket == w.bucket + {name} && u.0.files == w.files - {file})
            && (file !in w.files || env.uploadFails(name) ==> u.0.bucket == w.bucket && u.0.files == w.files)
            && (file in w.files && !env.uploadFails(name) ==> u.0.bucket == w.bucket + {name})
            && u.0.files == w.files - (if u.1 then {file} else {})
  {
  }

  /** One part of `cutVideo`: validate (by the 32-bit difference the code
      computes), look the clip up, transcode and upload it if absent. `succeeded` starts false and is only ever set from
      the upload's answer. */
  function CutPartSpec(w: World, maxDuration: Int32, video: string, part: PartRequest, env: Env): (s: Step)
    ensures s.response.video == video && s.response.from == part.from && s.response.to == part.to
    ensures w.bucket <= s.world.bucket
  {
    var from, to := part.from, part.to;
    var name := PartObjectName(video, from, to);
    var failed := PartResponse(video, from, to, false);
    if ClassifyAsWritten(from, to, maxDuration) != Accepted then Step(w, failed)
    else
      var looked := w.(trace := w.trace + [Lookup(name)]);
      if name in w.bucket then Step(looked, failed)  // "Part already clipped"
      else
        var ran := looked.(trace := looked.trace + [Ffmpeg(video, from, to)]);
        if env.ffmpeg(video, from, to) == Exited(0) then
          var u := UploadSpec(ran.(files := ran.files + {PartFileName(video, from, to)}), video, from, to, env);
          Step(u.0, PartResponse(video, from, to, u.1))
        else Step(ran, failed)
  }

  /** `cutVideo`: the parts of one video, one after the other. */
  function CutVideoSpec(w: World, maxDuration: Int32, video: string, parts: seq<PartRequest>, env: Env): (r: Run)
    ensures |r.responses| == |parts|
    ensures w.bucket <= r.world.bucket
    decreases |parts|
  {
    if parts == [] then Run(w, [])
    else
      var prev := CutVideoSpec(w, maxDuration, video, parts[..|parts| - 1], env);
      var s := CutPartSpec(prev.world, maxDuration, video, parts[|parts| - 1], env);
      Run(s.world, prev.responses + [s.response])
  }

  /** `process`: for each group, in the order the grouping hands them out,
      resolve the source once and cut the group's parts. */
  function ProcessSpec(w: World, maxDuration: Int32, parts: seq<PartRequest>, order: seq<string>, env: Env): (r: Run)
    ensures w.bucket <= r.world.bucket
    decreases |order|
  {
    if order == [] then Run(w, [])
    else
      var prev := ProcessSpec(w, maxDuration, parts, order[..|order| - 1], env);
      var v := order[|order| - 1];
      var c := CutVideoSpec(GetVideoSpec(prev.world, v), maxDuration, v, PartsOf(parts, v), env);
      Run(c.world, prev.responses + c.responses)
  }

  // ---------------------------------------------------------------------------
  // One part
  // ---------------------------------------------------------------------------

  /** A reversed, empty or too long range is answered false without looking
      at storage or running ffmpeg: nothing in the world changes. */
  lemma {:induction false} RejectedPartTouchesNothing(w: World, maxDuration: Int32, video: string, part: PartRequest, env: Env)
    requires ClassifyAsWritten(part.from, part.to, maxDuration) != Accepted
    ensures CutPartSpec(w, maxDuration, video, part, env) == Step(w, PartResponse(video, part.from, part.to, false))
  {
  }

  /** A part whose clip is already stored is looked up and nothing else:
      no transcode, no upload, bucket and files unchanged, and it is
      answered false because `succeeded` is never set on that branch. */
  lemma {:induction false} ClippedPartReportedFailed(w: World, maxDuration: Int32, video: string, part: PartRequest, env: Env)
    requires ClassifyAsWritten(part.from, part.to, maxDuration) == Accepted
    requires PartObjectName(video, part.from, part.to) in w.bucket
    ensures var s := CutPartSpec(w, maxDuration, video, part, env);
            && !s.response.succeeded
            && s.world == w.(trace := w.trace + [Lookup(PartObjectName(video, part.from, part.to))])
  {
  }

  /** When ffmpeg fails, times out or exits non-zero, nothing is uploaded and
      no file is added: whatever it left behind never reaches storage. */
  lemma {:induction false} FailedTranscodeUploadsNothing(w: World, maxDuration: Int32, video: string, part: PartRequest, env: Env)
    requires ClassifyAsWritten(part.from, part.to, maxDuration) == Accepted
    requires PartObjectName(video, part.from, part.to) !in w.bucket
    requires env.ffmpeg(video, part.from, part.to) != Exited(0)
    ensures var s := CutPartSpec(w, maxDuration, video, part, env);
            && !s.response.succeeded
            && s.world.bucket == w.bucket && s.world.files == w.files
            && s.world.trace == w.trace + [Lookup(PartObjectName(video, part.from, part.to)),
                                           Ffmpeg(video, part.from, part.to)]
  {
  }

  /** A part succeeds exactly when the range check as written accepts it, its clip is absent, ffmpeg
      exits in time with code 0, and both the upload and the local delete go
      through; it then leaves its clip in the bucket and no local file. */
  lemma {:induction false} PartSucceedsExactlyWhen(w: World, maxDuration: Int32, video: string, part: PartRequest, env: Env)
    ensures var s := CutPartSpec(w, maxDuration, video, part, env);
            var name, file := PartObjectName(video, part.from, part.to), PartFileName(video, part.from, part.to);
            && (s.response.succeeded <==>
                  && ClassifyAsWritten(part.from, part.to, maxDuration) == Accepted
                  && name !in w.bucket
                  && env.ffmpeg(video, part.from, part.to) == Exited(0)
                  && !env.uploadFails(name)
                  && !env.deleteFails(file))
            && (s.response.succeeded ==> s.world.bucket == w.bucket + {name} && file !in s.world.files)
  {
  }

  /** The bucket only grows, and only by the clip of a part the range check accepts whose
      transcode exited 0. */
  lemma {:induction false} PartBucketGrowth(w: World, maxDuration: Int32, video: string, part: PartRequest, env: Env)
    ensures var s := CutPartSpec(w, maxDuration, video, part, env);
            && w.bucket <= s.world.bucket
            && s.world.bucket <= w.bucket +
                 (if ClassifyAsWritten(part.from, part.to, maxDuration) == Accepted
                     && env.ffmpeg(video, part.from, part.to) == Exited(0)
                  then {PartObjectName(video, part.from, part.to)} else {})
  {
  }

  /** Submitting a part again right after it succeeded does no work, leaves
      storage and files as they are, and is answered false, although a
      re-submission is meant to be an idempotent skip that succeeds. */
  lemma {:induction false} ResubmittedPartReportedFailed(w: World, maxDuration: Int32, video: string, part: PartRequest, env: Env)
    requires CutPartSpec(w, maxDuration, video, part, env).response.succeeded
    ensures var s := CutPartSpec(w, maxDuration, video, part, env);
            var again := CutPartSpec(s.world, maxDuration, video, part, env);
            && !again.response.succeeded
            && again.world.bucket == s.world.bucket
            && again.world.files == s.world.files
            && again.world.trace == s.world.trace + [Lookup(PartObjectName(video, part.from, part.to))]
  {
    PartSucceedsExactlyWhen(w, maxDuration, video, part, env);
    ClippedPartReportedFailed(CutPartSpec(w, maxDuration, video, part, env).world, maxDuration, video, part, env);
  }

  /** What the 32-bit subtraction lets through: with a non-negative
      ceiling, a part longer than `MaxInt32` seconds, which the intended
      check rejects as too long, is looked up and, when its clip is absent,
      sent to ffmpeg. */
  lemma {:induction false} OverlongPartIsTranscoded(w: World, maxDuration: Int32, video: string,
                                                     part: PartRequest, env: Env)
    requires 0 <= maxDuration && part.to - part.from > MaxInt32
    requires PartObjectName(video, part.from, part.to) !in w.bucket
    ensures Classify(part.from, part.to, maxDuration) == TooLong
    ensures var t := CutPartSpec(w, maxDuration, video, part, env).world.trace;
            |w.trace| + 2 <= |t|
            && t[..|w.trace| + 2] == w.trace + [Lookup(PartObjectName(video, part.from, part.to)),
                                                 Ffmpeg(video, part.from, part.to)]
  {
    AsWrittenVersusIntended(part.from, part.to, maxDuration);
  }

  // ---------------------------------------------------------------------------
  // Which calls are made
  // ---------------------------------------------------------------------------

  /** The videos `getVideo` was called for, in call order. */
  function Resolutions(trace: seq<Event>): seq<string>
    decreases |trace|
  {
    if trace == [] then []
    else
      var e := trace[|trace| - 1];
      Resolutions(trace[..|trace| - 1]) + (if e.Resolve? then [e.video] else [])
  }

  lemma {:induction false} ResolutionsSnoc(t: seq<Event>, e: Event)
    ensures Resolutions(t + [e]) == Resolutions(t) + (if e.Resolve? then [e.video] else [])
  {
    assert (t + [e])[..|t|] == t;
  }

  lemma {:induction false} ResolutionsWithout(t: seq<Event>, evs: seq<Event>)
    requires forall i :: 0 <= i < |evs| ==> !evs[i].Resolve?
    ensures Resolutions(t + evs) == Resolutions(t)
    decreases |evs|
  {
    if evs == [] {
      assert t + evs == t;
    } else {
      var init := evs[..|evs| - 1];
      ResolutionsWithout(t, init);
      assert t + evs == (t + init) + [evs[|evs| - 1]];
      ResolutionsSnoc(t + init, evs[|evs| - 1]);
    }
  }

  lemma {:induction false} PartResolvesNothing(w: World, maxDuration: Int32, video: string, part: PartRequest, env: Env)
    ensures Resolutions(CutPartSpec(w, maxDuration, video, part, env).world.trace) == Resolutions(w.trace)
  {
    var from, to := part.from, part.to;
    var name, file := PartObjectName(video, from, to), PartFileName(video, from, to);
    var t := CutPartSpec(w, maxDuration, video, part, env).world.trace;
    var evs: seq<Event>;
    if ClassifyAsWritten(from, to, maxDuration) != Accepted {
      evs := [];
    } else if name in w.bucket {
      evs := [Lookup(name)];
    } else if env.ffmpeg(video, from, to) != Exited(0) {
      evs := [Lookup(name), Ffmpeg(video, from, to)];
    } else if env.uploadFails(name) {
      evs := [Lookup(name), Ffmpeg(video, from, to), Upload(name)];
    } else {
      evs := [Lookup(name), Ffmpeg(video, from, to), Upload(name), Delete(file)];
    }
    assert t == w.trace + evs;
    ResolutionsWithout(w.trace, evs);
  }

  lemma {:induction false} VideoResolvesNothing(w: World, maxDuration: Int32, video: string, parts: seq<PartRequest>, env: Env)
    ensures Resolutions(CutVideoSpec(w, maxDuration, video, parts, env).world.trace) == Resolutions(w.trace)
    decreases |parts|
  {
    if parts != [] {
      var prev := CutVideoSpec(w, maxDuration, video, parts[..|parts| - 1], env);
      VideoResolvesNothing(w, maxDuration, video, parts[..|parts| - 1], env);
      PartResolvesNothing(prev.world, maxDuration, video, parts[|parts| - 1], env);
    }
  }

  lemma {:induction false} GetVideoResolves(w: World, video: string)
    ensures Resolutions(GetVideoSpec(w, video).trace) == Resolutions(w.trace) + [video]
  {
    ResolutionsSnoc(w.trace, Resolve(video));
    ResolutionsWithout(w.trace + [Resolve(video)], [Download(SourceObjectName(video))]);
    assert w.trace + [Resolve(video), Download(SourceObjectName(video))]
        == w.trace + [Resolve(video)] + [Download(SourceObjectName(video))];
  }

  /** `getVideo` runs exactly once per group, in group order, whatever the
      number of parts per video. */
  lemma {:induction false} ProcessResolvesEachGroupOnce(w: World, maxDuration: Int32, parts: seq<PartRequest>,
                                                          order: seq<string>, env: Env)
    ensures Resolutions(ProcessSpec(w, maxDuration, parts, order, env).world.trace) == Resolutions(w.trace) + order
    decreases |order|
  {
    if order != [] {
      var o, v := order[..|order| - 1], order[|order| - 1];
      var prev := ProcessSpec(w, maxDuration, parts, o, env);
      ProcessResolvesEachGroupOnce(w, maxDuration, parts, o, env);
      assert order == o + [v];
      ProcessSnoc(w, maxDuration, parts, o, v, env);
      var g := GetVideoSpec(prev.world, v);
      var c := CutVideoSpec(g, maxDuration, v, PartsOf(parts, v), env);
      assert ProcessSpec(w, maxDuration, parts, order, env).world == c.world;
      GetVideoResolves(prev.world, v);
      VideoResolvesNothing(g, maxDuration, v, PartsOf(parts, v), env);
      assert Resolutions(c.world.trace) == Resolutions(prev.world.trace) + [v];
      assert Resolutions(w.trace) + o + [v] == Resolutions(w.trace) + order;
    }
  }

  // ---------------------------------------------------------------------------
  // One response per part
  // ---------------------------------------------------------------------------

  lemma {:induction false} RequestsOfAppend(a: seq<PartResponse>, b: seq<PartResponse>)
    ensures RequestsOf(a + b) == RequestsOf(a) + RequestsOf(b)
  {
  }

  /** `cutVideo` answers each part of the group once, in order, copying its
      video, `from` and `to`. */
  lemma {:induction false} VideoAnswersItsParts(w: World, maxDuration: Int32, video: string, parts: seq<PartRequest>, env: Env)
    requires forall i :: 0 <= i < |parts| ==> parts[i].video == video
    ensures RequestsOf(CutVideoSpec(w, maxDuration, video, parts, env).responses) == parts
    decreases |parts|
  {
    if parts != [] {
      var init := parts[..|parts| - 1];
      var prev := CutVideoSpec(w, maxDuration, video, init, env);
      VideoAnswersItsParts(w, maxDuration, video, init, env);
      var s := CutPartSpec(prev.world, maxDuration, video, parts[|parts| - 1], env);
      RequestsOfAppend(prev.responses, [s.response]);
      assert parts == init + [parts[|parts| - 1]];
    }
  }

  lemma {:induction false} ProcessAnswersRegrouped(w: World, maxDuration: Int32, parts: seq<PartRequest>,
                                                     order: seq<string>, env: Env)
    ensures RequestsOf(ProcessSpec(w, maxDuration, parts, order, env).responses) == Regrouped(parts, order)
    decreases |order|
  {
    if order != [] {
      var o, v := order[..|order| - 1], order[|order| - 1];
      var prev := ProcessSpec(w, maxDuration, parts, o, env);
      ProcessAnswersRegrouped(w, maxDuration, parts, o, env);
      var c := CutVideoSpec(GetVideoSpec(prev.world, v), maxDuration, v, PartsOf(parts, v), env);
      VideoAnswersItsParts(GetVideoSpec(prev.world, v), maxDuration, v, PartsOf(parts, v), env);
      RequestsOfAppend(prev.responses, c.responses);
    }
  }

  /** Exactly one response per requested part: the responses answer a
      permutation of the requests, and within each video they answer its
      parts in input order, with video, from and to copied unchanged. */
  lemma {:induction false} ProcessAnswersEachPartOnce(w: World, maxDuration: Int32, parts: seq<PartRequest>,
                                   order: seq<string>, env: Env, v: string)
    requires IsGroupOrder(order, parts)
    ensures var rs := ProcessSpec(w, maxDuration, parts, order, env).responses;
            && |rs| == |parts|
            && multiset(RequestsOf(rs)) == multiset(parts)
            && PartsOf(RequestsOf(rs), v) == PartsOf(parts, v)
  {
    ProcessAnswersRegrouped(w, maxDuration, parts, order, env);
    RegroupedIsPermutation(parts, order);
    RegroupedKeepsVideoOrder(parts, order, v);
  }

  // ---------------------------------------------------------------------------
  // What reaches storage
  // ---------------------------------------------------------------------------

  /** The clip names a batch may create: those of parts the range check accepts whose
      transcode exits 0. */
  function Producible(parts: seq<PartRequest>, maxDuration: Int32, env: Env): set<string> {
    set p | p in parts && ClassifyAsWritten(p.from, p.to, maxDuration) == Accepted
                       && env.ffmpeg(p.video, p.from, p.to) == Exited(0)
          :: PartObjectName(p.video, p.from, p.to)
  }

  lemma {:induction false} VideoBucketGrowth(w: World, maxDuration: Int32, video: string, parts: seq<PartRequest>, env: Env)
    requires forall i :: 0 <= i < |parts| ==> parts[i].video == video
    ensures var r := CutVideoSpec(w, maxDuration, video, parts, env);
            w.bucket <= r.world.bucket <= w.bucket + Producible(parts, maxDuration, env)
    decreases |parts|
  {
    if parts != [] {
      var init, last := parts[..|parts| - 1], parts[|parts| - 1];
      var prev := CutVideoSpec(w, maxDuration, video, init, env);
      VideoBucketGrowth(w, maxDuration, video, init, env);
      PartBucketGrowth(prev.world, maxDuration, video, last, env);
      assert Producible(init, maxDuration, env) <= Producible(parts, maxDuration, env) by {
        forall p | p in init ensures p in parts {
        }
      }
      assert last in parts;
    }
  }

  /** Over a whole batch the bucket only grows, and only by clips of parts
      of the batch the range check accepts whose transcode exited 0. */
  lemma {:induction false} ProcessBucketGrowth(w: World, maxDuration: Int32, parts: seq<PartRequest>,
                                                 order: seq<string>, env: Env)
    ensures var r := ProcessSpec(w, maxDuration, parts, order, env);
            w.bucket <= r.world.bucket <= w.bucket + Producible(parts, maxDuration, env)
    decreases |order|
  {
    if order != [] {
      var o, v := order[..|order| - 1], order[|order| - 1];
      var prev := ProcessSpec(w, maxDuration, parts, o, env);
      ProcessBucketGrowth(w, maxDuration, parts, o, env);
      var g := PartsOf(parts, v);
      VideoBucketGrowth(GetVideoSpec(prev.world, v), maxDuration, v, g, env);
      PartsOfWithin(parts, v);
      assert Producible(g, maxDuration, env) <= Producible(parts, maxDuration, env);
    }
  }

  // ---------------------------------------------------------------------------
  // hasErrors
  // ---------------------------------------------------------------------------

  lemma {:induction false} HasErrorsAppend(a: seq<PartResponse>, b: seq<PartResponse>)
    ensures HasErrors(a + b) <==> HasErrors(a) || HasErrors(b)
  {
    if HasErrors(a) {
      var i :| 0 <= i < |a| && !a[i].succeeded;
      assert (a + b)[i] == a[i];
    }
    if HasErrors(b) {
      var i :| 0 <= i < |b| && !b[i].succeeded;
      assert (a + b)[|a| + i] == b[i];
    }
    if HasErrors(a + b) {
      var i :| 0 <= i < |a + b| && !(a + b)[i].succeeded;
      if i < |a| {
        assert a[i] == (a + b)[i];
      } else {
        assert b[i - |a|] == (a + b)[i];
      }
    }
  }

  lemma {:induction false} VideoReportsClippedPart(w: World, maxDuration: Int32, video: string,
                                                     parts: seq<PartRequest>, env: Env, p: PartRequest)
    requires p in parts
    requires ClassifyAsWritten(p.from, p.to, maxDuration) == Accepted
    requires PartObjectName(video, p.from, p.to) in w.bucket
    ensures HasErrors(CutVideoSpec(w, maxDuration, video, parts, env).responses)
    decreases |parts|
  {
    var init, last := parts[..|parts| - 1], parts[|parts| - 1];
    var prev := CutVideoSpec(w, maxDuration, video, init, env);
    var s := CutPartSpec(prev.world, maxDuration, video, last, env);
    HasErrorsAppend(prev.responses, [s.response]);
    if p in init {
      VideoReportsClippedPart(w, maxDuration, video, init, env, p);
    } else {
      assert p == last;
      ClippedPartReportedFailed(prev.world, maxDuration, video, p, env);
      assert !([s.response][0].succeeded);
    }
  }

  lemma {:induction false} PartsOfHas(parts: seq<PartRequest>, p: PartRequest)
    requires p in parts
    ensures p in PartsOf(parts, p.video)
    decreases |parts|
  {
    if parts[|parts| - 1] != p {
      PartsOfHas(parts[..|parts| - 1], p);
    }
  }

  /** A batch holding an accepted part whose clip is already stored always
      reports `hasErrors`, even when every other part succeeds. */
  lemma {:induction false} ProcessReportsClippedPart(w: World, maxDuration: Int32, parts: seq<PartRequest>,
                                                       order: seq<string>, env: Env, p: PartRequest)
    requires p in parts && p.video in order
    requires ClassifyAsWritten(p.from, p.to, maxDuration) == Accepted
    requires PartObjectName(p.video, p.from, p.to) in w.bucket
    ensures HasErrors(ProcessSpec(w, maxDuration, parts, order, env).responses)
    decreases |order|
  {
    var o, v := order[..|order| - 1], order[|order| - 1];
    var prev := ProcessSpec(w, maxDuration, parts, o, env);
    var g := GetVideoSpec(prev.world, v);
    var c := CutVideoSpec(g, maxDuration, v, PartsOf(parts, v), env);
    HasErrorsAppend(prev.responses, c.responses);
    if p.video in o {
      ProcessReportsClippedPart(w, maxDuration, parts, o, env, p);
    } else {
      assert p.video == v;
      PartsOfHas(parts, p);
      VideoReportsClippedPart(g, maxDuration, v, PartsOf(parts, v), env, p);
    }
  }

  // ---------------------------------------------------------------------------
  // A worked batch
  // ---------------------------------------------------------------------------

  lemma {:induction false} CutVideoSnoc(w: World, maxDuration: Int32, video: string, parts: seq<PartRequest>, p: PartRequest, env: Env)
    ensures var prev := CutVideoSpec(w, maxDuration, video, parts, env);
            var s := CutPartSpec(prev.world, maxDuration, video, p, env);
            CutVideoSpec(w, maxDuration, video, parts + [p], env) == Run(s.world, prev.responses + [s.response])
  {
    assert (parts + [p])[..|parts|] == parts;
  }

  lemma {:induction false} ProcessSnoc(w: World, maxDuration: Int32, parts: seq<PartRequest>, order: seq<string>, v: string, env: Env)
    ensures var prev := ProcessSpec(w, maxDuration, parts, order, env);
            var c := CutVideoSpec(GetVideoSpec(prev.world, v), maxDuration, v, PartsOf(parts, v), env);
            ProcessSpec(w, maxDuration, parts, order + [v], env) == Run(c.world, prev.responses + c.responses)
  {
    assert (order + [v])[..|order|] == order;
  }

  /** The batch of the worked example, for two distinct videos `a` and `b`. */
  function WorkedParts(a: string, b: string): seq<PartRequest> {
    [PartRequest(a, 0, 5), PartRequest(a, 20, 10), PartRequest(b, 0, 5)]
  }

  lemma {:induction false} PartsOfSnoc(ps: seq<PartRequest>, p: PartRequest, v: string)
    ensures PartsOf(ps + [p], v) == PartsOf(ps, v) + (if p.video == v then [p] else [])
  {
    assert (ps + [p])[..|ps|] == ps;
  }

  /** The group of `v` in a batch of three parts. */
  lemma {:induction false} PartsOfThree(p: PartRequest, q: PartRequest, r: PartRequest, v: string)
    ensures PartsOf([p, q, r], v) ==
              (if p.video == v then [p] else []) + (if q.video == v then [q] else []) + (if r.video == v then [r] else [])
  {
    var none: seq<PartRequest> := [];
    PartsOfSnoc(none, p, v);
    assert none + [p] == [p];
    PartsOfSnoc([p], q, v);
    assert [p] + [q] == [p, q];
    PartsOfSnoc([p, q], r, v);
    assert [p, q] + [r] == [p, q, r];
  }

  lemma {:induction false} WorkedVideos(a: string, b: string)
    requires a != b
    ensures IsGroupOrder([a, b], WorkedParts(a, b))
  {
    var parts := WorkedParts(a, b);
    assert Videos(parts) == {a, b} by {
      assert parts[0].video == a && parts[2].video == b;
    }
  }

  lemma {:induction false} WorkedGroups(a: string, b: string)
    requires a != b
    ensures PartsOf(WorkedParts(a, b), a) == [PartRequest(a, 0, 5), PartRequest(a, 20, 10)]
    ensures PartsOf(WorkedParts(a, b), b) == [PartRequest(b, 0, 5)]
  {
    var pa, pr, pb := PartRequest(a, 0, 5), PartRequest(a, 20, 10), PartRequest(b, 0, 5);
    PartsOfThree(pa, pr, pb, a);
    PartsOfThree(pa, pr, pb, b);
  }

  /** An accepted part that goes through followed by a reversed one: the first
      is stored and answered true, the second answered false. */
  lemma {:induction false} StoredThenReversed(w: World, maxDuration: Int32, video: string, p: PartRequest, q: PartRequest, env: Env)
    requires ClassifyAsWritten(p.from, p.to, maxDuration) == Accepted && q.to <= q.from
    requires PartObjectName(video, p.from, p.to) !in w.bucket
    requires env.ffmpeg(video, p.from, p.to) == Exited(0)
    requires !env.uploadFails(PartObjectName(video, p.from, p.to))
    requires !env.deleteFails(PartFileName(video, p.from, p.to))
    ensures var r := CutVideoSpec(w, maxDuration, video, [p, q], env);
            && r.responses == [PartResponse(video, p.from, p.to, true), PartResponse(video, q.from, q.to, false)]
            && r.world.bucket == w.bucket + {PartObjectName(video, p.from, p.to)}
  {
    SingleStored(w, maxDuration, video, p, env);
    var s1 := CutPartSpec(w, maxDuration, video, p, env);
    CutVideoSnoc(w, maxDuration, video, [p], q, env);
    assert [p] + [q] == [p, q];
    RejectedPartTouchesNothing(s1.world, maxDuration, video, q, env);
  }

  /** A single accepted part that goes through is stored and answered true. */
  lemma {:induction false} SingleStored(w: World, maxDuration: Int32, video: string, p: PartRequest, env: Env)
    requires ClassifyAsWritten(p.from, p.to, maxDuration) == Accepted
    requires PartObjectName(video, p.from, p.to) !in w.bucket
    requires env.ffmpeg(video, p.from, p.to) == Exited(0)
    requires !env.uploadFails(PartObjectName(video, p.from, p.to))
    requires !env.deleteFails(PartFileName(video, p.from, p.to))
    ensures var r := CutVideoSpec(w, maxDuration, video, [p], env);
            && r.responses == [PartResponse(video, p.from, p.to, true)]
            && r.world.bucket == w.bucket + {PartObjectName(video, p.from, p.to)}
  {
    CutVideoSnoc(w, maxDuration, video, [], p, env);
    assert [] + [p] == [p];
    PartSucceedsExactlyWhen(w, maxDuration, video, p, env);
  }

  /** A batch of two groups, unfolded; a helper of `WorkedBatch`. */
  lemma {:induction false} ProcessTwoGroups(w: World, maxDuration: Int32, parts: seq<PartRequest>, u: string, v: string, env: Env)
    ensures var ru := CutVideoSpec(GetVideoSpec(w, u), maxDuration, u, PartsOf(parts, u), env);
            var rv := CutVideoSpec(GetVideoSpec(ru.world, v), maxDuration, v, PartsOf(parts, v), env);
            ProcessSpec(w, maxDuration, parts, [u, v], env) == Run(rv.world, ru.responses + rv.responses)
  {
    var none: seq<string> := [];
    assert ProcessSpec(w, maxDuration, parts, none, env) == Run(w, []);
    ProcessSnoc(w, maxDuration, parts, none, u, env);
    assert none + [u] == [u];
    var ru := CutVideoSpec(GetVideoSpec(w, u), maxDuration, u, PartsOf(parts, u), env);
    assert ProcessSpec(w, maxDuration, parts, [u], env) == Run(ru.world, ru.responses);
    ProcessSnoc(w, maxDuration, parts, [u], v, env);
    assert [u] + [v] == [u, v];
  }

  /** Two parts of video `a` (the second reversed) and one of video `b`,
      neither clip stored yet, every external call succeeding, ceiling 10 s:
      both accepted parts succeed, the reversed one fails, and `hasErrors` is
      set. */
  lemma {:induction false} WorkedBatch(w: World, env: Env, a: string, b: string)
    requires a != b
    requires PartObjectName(a, 0, 5) !in w.bucket && PartObjectName(b, 0, 5) !in w.bucket
    requires env.ffmpeg(a, 0, 5) == Exited(0) && env.ffmpeg(b, 0, 5) == Exited(0)
    requires !env.uploadFails(PartObjectName(a, 0, 5)) && !env.uploadFails(PartObjectName(b, 0, 5))
    requires !env.deleteFails(PartFileName(a, 0, 5)) && !env.deleteFails(PartFileName(b, 0, 5))
    ensures IsGroupOrder([a, b], WorkedParts(a, b))
    ensures var r := ProcessSpec(w, 10, WorkedParts(a, b), [a, b], env);
            && r.responses == [PartResponse(a, 0, 5, true), PartResponse(a, 20, 10, false),
                               PartResponse(b, 0, 5, true)]
            && HasErrors(r.responses)
            && r.world.bucket == w.bucket + {PartObjectName(a, 0, 5), PartObjectName(b, 0, 5)}
  {
    var parts := WorkedParts(a, b);
    var pa, pr, pb := PartRequest(a, 0, 5), PartRequest(a, 20, 10), PartRequest(b, 0, 5);
    WorkedGroups(a, b);
    WorkedVideos(a, b);
    ProcessTwoGroups(w, 10, parts, a, b, env);
    var ga := GetVideoSpec(w, a);
    StoredThenReversed(ga, 10, a, pa, pr, env);
    var ra := CutVideoSpec(ga, 10, a, [pa, pr], env);
    if PartObjectName(b, 0, 5) == PartObjectName(a, 0, 5) {
      PartObjectNameInjective(b, 0, 5, a, 0, 5);
    }
    var gb := GetVideoSpec(ra.world, b);
    SingleStored(gb, 10, b, pb, env);
    var rb := CutVideoSpec(gb, 10, b, [pb], env);
    var rs := ra.responses + rb.responses;
    assert !rs[1].succeeded;
  }
}
