/** Canonical names of the clipper's storage objects and working files.
    The clip object name is the only idempotency key of the system: a part
    is not transcoded again when an object of that name is already stored. */
module Naming {
  import opened JavaStrings

  /** `getPartObjectName`: the storage object holding the clip of `video`
      between `from` and `to` seconds. */
  function PartObjectName(video: string, from: int, to: int): string {
    "videos/" + video + "/" + video + "_" + IntToString(from) + "_" + IntToString(to) + ".mp4"
  }

  /** The storage object holding the full source video, read by `getVideo`. */
  function SourceObjectName(video: string): string {
    "videos/" + video + "/" + video + ".mp4"
  }

  /** The local file ffmpeg writes a clip to, relative to the working directory. */
  function PartFileName(video: string, from: int, to: int): string {
    video + "_" + IntToString(from) + "_" + IntToString(to) + ".mp4"
  }

  /** The local copy of the source video, relative to the working directory. */
  function SourceFileName(video: string): string {
    video + ".mp4"
  }

  // ---------------------------------------------------------------------------
  // Collision freedom
  // ---------------------------------------------------------------------------

  /** Two strings cut at the first occurrence of `c` give the same pieces. */
  lemma {:induction false} CutAtSeparator(a: string, b: string, a': string, b': string, c: char)
    requires c !in a && c !in a'
    requires a + [c] + b == a' + [c] + b'
    ensures a == a' && b == b'
  {
    var s, s' := a + [c] + b, a' + [c] + b';
    assert |a'| <= |a| by {
      assert s[|a|] == c;
      assert forall i :: 0 <= i < |a'| ==> s'[i] == a'[i];
    }
    assert |a| <= |a'| by {
      assert s'[|a'|] == c;
      assert forall i :: 0 <= i < |a| ==> s[i] == a[i];
    }
    assert a == s[..|a|] && a' == s'[..|a'|];
    assert b == s[|a| + 1..] && b' == s'[|a'| + 1..];
  }

  /** If `v + "/" + x` and `v' + "/" + y` are the same string and `v`, `v'`
      hold equally many slashes, then `v` and `v'` are the same. */
  lemma {:induction false} SamePathHead(v: string, x: string, v': string, y: string)
    requires v + "/" + x == v' + "/" + y
    requires Count(v, '/') == Count(v', '/')
    ensures v == v'
  {
    var s := v + "/" + x;
    if |v| < |v'| {
      assert v' == s[..|v'|];
      assert v' == v + "/" + v'[|v| + 1..] by {
        assert v'[..|v|] == v;
        assert v'[|v|] == '/';
      }
      CountAppend(v + "/", v'[|v| + 1..], '/');
      CountAppend(v, "/", '/');
      assert false;
    } else if |v'| < |v| {
      assert v == s[..|v|];
      assert v == v' + "/" + v[|v'| + 1..] by {
        assert v[..|v'|] == v';
        assert v[|v'|] == '/';
      }
      CountAppend(v' + "/", v[|v'| + 1..], '/');
      CountAppend(v', "/", '/');
      assert false;
    }
    assert v == s[..|v|] && v' == s[..|v'|];
  }

  lemma {:induction false} IntToStringHasNoSlashOrUnderscore(n: int)
    ensures '/' !in IntToString(n) && '_' !in IntToString(n)
  {
    var s := IntToString(n);
    assert forall i :: 0 <= i < |s| ==> s[i] != '/' && s[i] != '_';
  }

  /** The '/'-count of `v + "_" + F + "_" + T` equals that of `v`. */
  lemma {:induction false} TailSlashes(v: string, from: int, to: int)
    ensures Count(ClipStem(v, from, to), '/') == Count(v, '/')
  {
    var f, t := IntToString(from), IntToString(to);
    IntToStringHasNoSlashOrUnderscore(from);
    IntToStringHasNoSlashOrUnderscore(to);
    assert Count(f, '/') == 0 && Count(t, '/') == 0 && Count("_", '/') == 0;
    CountAppend(v, "_", '/');
    CountAppend(v + "_", f, '/');
    CountAppend(v + "_" + f, "_", '/');
    CountAppend(v + "_" + f + "_", t, '/');
  }

  /** What follows the video's directory in a clip object name. */
  function ClipStem(v: string, from: int, to: int): string {
    v + "_" + IntToString(from) + "_" + IntToString(to)
  }

  lemma {:induction false} PartObjectNameShape(v: string, from: int, to: int)
    ensures PartObjectName(v, from, to) == "videos/" + (v + "/" + ClipStem(v, from, to)) + ".mp4"
  {
  }

  lemma {:induction false} StripAffixes(p: string, x: string, y: string, q: string)
    requires p + x + q == p + y + q
    ensures x == y
  {
    var s := p + x + q;
    assert x == s[|p|..|s| - |q|];
  }

  lemma {:induction false} SlashesOfPath(v: string, x: string)
    ensures Count(v + "/" + x, '/') == Count(v, '/') + 1 + Count(x, '/')
  {
    CountAppend(v + "/", x, '/');
    CountAppend(v, "/", '/');
  }

  /** Two stems of the same video are equal only for equal bounds. */
  lemma {:induction false} ClipStemBounds(v: string, from: int, to: int, from': int, to': int)
    requires ClipStem(v, from, to) == ClipStem(v, from', to')
    ensures from == from' && to == to'
  {
    var f, t, f', t' := IntToString(from), IntToString(to), IntToString(from'), IntToString(to');
    assert ClipStem(v, from, to) == (v + "_") + (f + "_" + t) + "";
    assert ClipStem(v, from', to') == (v + "_") + (f' + "_" + t') + "";
    StripAffixes(v + "_", f + "_" + t, f' + "_" + t', "");
    IntToStringHasNoSlashOrUnderscore(from);
    IntToStringHasNoSlashOrUnderscore(from');
    CutAtSeparator(f, t, f', t', '_');
    IntToStringInjective(from, from');
    IntToStringInjective(to, to');
  }

  /** Distinct keys `(video, from, to)` always get distinct object names:
      the object name determines the video and both bounds. */
  lemma {:induction false} PartObjectNameInjective(v: string, from: int, to: int, v': string, from': int, to': int)
    requires PartObjectName(v, from, to) == PartObjectName(v', from', to')
    ensures v == v' && from == from' && to == to'
  {
    var x, y := ClipStem(v, from, to), ClipStem(v', from', to');
    PartObjectNameShape(v, from, to);
    PartObjectNameShape(v', from', to');
    StripAffixes("videos/", v + "/" + x, v' + "/" + y, ".mp4");
    // equal paths hold equally many slashes, hence so do the two videos
    TailSlashes(v, from, to);
    TailSlashes(v', from', to');
    SlashesOfPath(v, x);
    SlashesOfPath(v', y);
    SamePathHead(v, x, v', y);
    assert v + "/" + x + "" == v + "/" + y + "";
    StripAffixes(v + "/", x, y, "");
    ClipStemBounds(v, from, to, from', to');
  }

  /** Distinct videos have distinct source objects and distinct local
      source files. */
  lemma {:induction false} SourceNamesInjective(v: string, v': string)
    ensures SourceFileName(v) == SourceFileName(v') ==> v == v'
    ensures SourceObjectName(v) == SourceObjectName(v') ==> v == v'
  {
    if SourceFileName(v) == SourceFileName(v') {
      assert |v| == |v'|;
      assert v == SourceFileName(v)[..|v|];
    }
    if SourceObjectName(v) == SourceObjectName(v') {
      assert |v| == |v'|;
      assert v == SourceObjectName(v)[7..7 + |v|];
    }
  }

  /** No clip object ever has the name of a source object, so an upload can
      neither overwrite a source video nor be refused because of one. */
  lemma {:induction false} PartObjectNeverSource(v: string, from: int, to: int, w: string)
    ensures PartObjectName(v, from, to) != SourceObjectName(w)
  {
    var x := ClipStem(v, from, to);
    if PartObjectName(v, from, to) == SourceObjectName(w) {
      PartObjectNameShape(v, from, to);
      assert SourceObjectName(w) == "videos/" + (w + "/" + w) + ".mp4";
      StripAffixes("videos/", v + "/" + x, w + "/" + w, ".mp4");
      TailSlashes(v, from, to);
      SlashesOfPath(v, x);
      SlashesOfPath(w, w);
      SamePathHead(v, x, w, w);
      assert false;
    }
  }

  /** ffmpeg never writes a clip over the local source it reads. */
  lemma {:induction false} PartFileNotOwnSource(video: string, from: int, to: int)
    ensures PartFileName(video, from, to) != SourceFileName(video)
  {
    assert |PartFileName(video, from, to)| > |SourceFileName(video)|;
  }

  /** Unlike the object names, the local file names can collide: the clip of
      video "a" from 1 to 2 is written where the source of video "a_1_2" is
      kept, so `getVideo("a_1_2")` would take a left-over clip for the source. */
  lemma {:induction false} LocalNamesCanCollide()
    ensures PartFileName("a", 1, 2) == SourceFileName("a_1_2")
  {
  }
}
