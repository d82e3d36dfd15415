/**
 * A sector of the orientation restriction C (assets/lib/orientation-restriction/Sector.mjs):
 * the angular range between two consecutive restricted orientations. The sectors of C are
 * passed in as a sequence, standing for `C.getSectors()`.
 */
module OrientationRestriction {
  import opened Wrappers
  import Utilities

  datatype Sector = Sector(idx: int, lower: real, upper: real)

  /** Sector.getBounds */
  function GetBounds(s: Sector): (r: (real, real))
    ensures r.0 == s.lower && r.1 == s.upper
  {
    (s.lower, s.upper)
  }

  /** Sector.getIdx */
  function GetIdx(s: Sector): (r: int)
    ensures r == s.idx
  {
    s.idx
  }

  /** Sector.encloses: the angle lies within the closed range [lower, upper]. */
  predicate Encloses(s: Sector, angle: real)
  {
    var (lowerBound, upperBound) := GetBounds(s);
    angle >= lowerBound && angle <= upperBound
  }

  /** A sector whose bounds are the wrong way round encloses no angle; otherwise both bounds are enclosed. */
  lemma EnclosesBounds(s: Sector, angle: real)
    ensures s.lower > s.upper ==> !Encloses(s, angle)
    ensures s.lower <= s.upper ==> Encloses(s, s.lower) && Encloses(s, s.upper)
    ensures Encloses(s, angle) ==> s.lower <= angle <= s.upper
  {
  }

  /** `sectors[k]`: undefined outside the array. */
  function At(sectors: seq<Sector>, k: int): (r: Option<Sector>)
    ensures r.Some? <==> 0 <= k < |sectors|
    ensures r.Some? ==> r.value == sectors[k]
  {
    if 0 <= k < |sectors| then Some(sectors[k]) else None
  }

  /** Sector.getNeighbors: the previous and the next sector of C, wrapping around at both ends. */
  function GetNeighbors(sectors: seq<Sector>, s: Sector): (r: (Option<Sector>, Option<Sector>))
    ensures |sectors| == 0 ==> r == (None, None)
    ensures 0 <= s.idx < |sectors| ==>
      r == (Some(sectors[(s.idx - 1) % |sectors|]), Some(sectors[(s.idx + 1) % |sectors|]))
  {
    var idx := GetIdx(s);
    var n := |sectors|;
    var prev := if idx == 0 then n - 1 else idx - 1;
    var next := if n == 0 then None else Some(Utilities.JsRem(idx + 1, n));
    assert 0 <= idx < n ==> prev == (idx - 1) % n by {
      if 0 <= idx < n {
        Utilities.ModUnique(idx - 1, n, if idx == 0 then -1 else 0, prev);
      }
    }
    (At(sectors, prev), if next.None? then None else At(sectors, next.value))
  }

  /** The sectors of C are listed at their own index. */
  ghost predicate WellIndexed(sectors: seq<Sector>)
  {
    forall i :: 0 <= i < |sectors| ==> sectors[i].idx == i
  }

  /** In a well-indexed restriction, the next sector's previous one and the previous sector's next one are the sector itself. */
  lemma NeighborsAreInverse(sectors: seq<Sector>, i: nat)
    requires WellIndexed(sectors) && i < |sectors|
    ensures GetNeighbors(sectors, GetNeighbors(sectors, sectors[i]).1.value).0 == Some(sectors[i])
    ensures GetNeighbors(sectors, GetNeighbors(sectors, sectors[i]).0.value).1 == Some(sectors[i])
  {
    var n := |sectors|;
    var next, prev := (i + 1) % n, (i - 1) % n;
    Utilities.ModUnique(i + 1, n, if i + 1 == n then 1 else 0, if i + 1 == n then 0 else i + 1);
    Utilities.ModUnique(i - 1, n, if i == 0 then -1 else 0, if i == 0 then n - 1 else i - 1);
    Utilities.ModUnique(next - 1, n, if next == 0 then -1 else 0, i);
    Utilities.ModUnique(prev + 1, n, if prev + 1 == n then 1 else 0, i);
  }

  /** A restriction with a single sector is its own neighbour on both sides. */
  lemma SingleSectorIsOwnNeighbor(s: Sector)
    requires s.idx == 0
    ensures GetNeighbors([s], s) == (Some(s), Some(s))
  {
  }
}
