/** The clipper's imperative core: an object holding its configuration and
    the state it changes (the bucket it writes clips to and its working
    directory), with one method per step of a batch. Each method is proved
    to change that state exactly as the matching function of `Pipeline`
    says, so every lemma proved there holds of the methods too. */
module Clipper {
  import opened Validation
  import opened Naming
  import opened Batch
  import opened Pipeline

  class ClipperFunction {
    /** The longest accepted range, in seconds (`MAX_DURATION`, default 10). */
    const maxDuration: Int32
    /** Names of the objects stored in the bucket. */
    var bucket: set<string>
    /** Names of the files in the working directory. */
    var workDir: set<string>
    /** The calls made to storage, the file system and ffmpeg, in order. */
    ghost var trace: seq<Event>

    ghost function State(): World
      reads this
    {
      World(bucket, workDir, trace)
    }

    constructor (maxDuration: Int32, bucket: set<string>, workDir: set<string>)
      ensures this.maxDuration == maxDuration
      ensures State() == World(bucket, workDir, [])
    {
      this.maxDuration := maxDuration;
      this.bucket := bucket;
      this.workDir := workDir;
      this.trace := [];
    }

    /** `getVideo`: make sure the source of `video` is in the working
        directory, downloading it only when no file of that name is there. */
    method GetVideo(video: string)
      modifies this
      ensures State() == GetVideoSpec(old(State()), video)
    {
      var target := SourceFileName(video);
      trace := trace + [Resolve(video)];
      if target !in workDir {
        trace := trace + [Download(SourceObjectName(video))];
        workDir := workDir + {target};
      }
    }

    /** The ffmpeg run of one part: on a timely exit with code 0 the clip
        file is in the working directory. */
    method Transcode(video: string, from: Int32, to: Int32, env: Env) returns (ok: bool)
      modifies this
      ensures ok <==> env.ffmpeg(video, from, to) == Exited(0)
      ensures bucket == old(bucket)
      ensures workDir == old(workDir) + (if ok then {PartFileName(video, from, to)} else {})
      ensures trace == old(trace) + [Ffmpeg(video, from, to)]
    {
      trace := trace + [Ffmpeg(video, from, to)];
      var outcome := env.ffmpeg(video, from, to);
      ok := outcome.Exited? && outcome.code == 0;
      if ok {
        workDir := workDir + {PartFileName(video, from, to)};
      }
    }

    /** `uploadPart`: store the clip file under the clip's object name,
        provided no such object exists, then delete the local file. */
    method UploadPart(video: string, from: Int32, to: Int32, env: Env) returns (ok: bool)
      requires PartObjectName(video, from, to) !in bucket
      modifies this
      ensures (State(), ok) == UploadSpec(old(State()), video, from, to, env)
    {
      var blobName := PartObjectName(video, from, to);
      var file := PartFileName(video, from, to);
      trace := trace + [Upload(blobName)];
      if file !in workDir || env.uploadFails(blobName) {
        // `createFrom` threw an IOException
        return false;
      }
      bucket := bucket + {blobName};
      trace := trace + [Delete(file)];
      if env.deleteFails(file) {
        // the object is stored, but `deleteIfExists` threw
        return false;
      }
      workDir := workDir - {file};
      return true;
    }

    /** The per-part step of `cutVideo`. */
    method CutPart(video: string, part: PartRequest, env: Env) returns (resp: PartResponse)
      modifies this
      ensures Step(State(), resp) == CutPartSpec(old(State()), maxDuration, video, part, env)
    {
      var from, to := part.from, part.to;
      var blobName := PartObjectName(video, from, to);
      var succeeded := false;
      if to <= from {
        // boundaries reversed
      } else if Wrap32(to as int - from as int) > maxDuration {
        // range too large, by the 32-bit difference
      } else {
        trace := trace + [Lookup(blobName)];
        if blobName !in bucket {
          var transcoded := Transcode(video, from, to, env);
          if transcoded {
            succeeded := UploadPart(video, from, to, env);
          }
        } else {
          // already clipped: `succeeded` stays false
        }
      }
      resp := PartResponse(video, from, to, succeeded);
    }

    /** `cutVideo`: the parts of one video, in order. */
    method CutVideo(video: string, parts: seq<PartRequest>, env: Env) returns (resps: seq<PartResponse>)
      modifies this
      ensures Run(State(), resps) == CutVideoSpec(old(State()), maxDuration, video, parts, env)
    {
      resps := [];
      for i := 0 to |parts|
        invariant Run(State(), resps) == CutVideoSpec(old(State()), maxDuration, video, parts[..i], env)
      {
        assert parts[..i + 1][..i] == parts[..i];
        var r := CutPart(video, parts[i], env);
        resps := resps + [r];
      }
      assert parts[..|parts|] == parts;
    }

    /** `process`: cut every group of the batch, the groups taken in
        `order`, and report whether any part failed. */
    method Process(parts: seq<PartRequest>, order: seq<string>, env: Env) returns (resp: ClipperResponse)
      requires IsGroupOrder(order, parts)
      modifies this
      ensures Run(State(), resp.parts) == ProcessSpec(old(State()), maxDuration, parts, order, env)
      ensures resp.hasErrors <==> exists i :: 0 <= i < |resp.parts| && !resp.parts[i].succeeded
    {
      var all := [];
      for k := 0 to |order|
        invariant Run(State(), all) == ProcessSpec(old(State()), maxDuration, parts, order[..k], env)
      {
        assert order[..k + 1][..k] == order[..k];
        var v := order[k];
        GetVideo(v);
        var rs := CutVideo(v, PartsOf(parts, v), env);
        all := all + rs;
      }
      assert order[..|order|] == order;
      resp := ClipperResponse(all, HasErrors(all));
    }
  }
}
