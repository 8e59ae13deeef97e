/** Failure-carrying results shared by every module. */
module Wrappers {

  datatype Option<+T> = None | Some(value: T)

  /** The error a Python function raises, reduced to its exception class. */
  datatype Error = ValueError | IndexError | TypeError

  datatype Result<+T> = Ok(value: T) | Err(error: Error)
}

/** Trajectory points and the node identities the miners compare them by. */
module Points {

  /** A stored trajectory point. Latitude and longitude are floats in the
      source; the model only ever compares them for equality. */
  datatype Point = Point(latitude: real, longitude: real, timestamp: int)

  /** The geometry-only node identity `(latitude, longitude)`. It is also the
      `{latitude, longitude}` dictionary the join and traversal miners emit. */
  datatype Loc = Loc(latitude: real, longitude: real)

  function KeyOf(p: Point): Loc {
    Loc(p.latitude, p.longitude)
  }

  /** One entry of the miners' input: `{trajectory_id, nodes}`. */
  datatype Trajectory = Trajectory(trajectoryId: int, nodes: seq<Point>)

  /** The geometry-only keys of a trajectory's points, in order. */
  function Locs(t: Trajectory): (r: seq<Loc>)
    ensures |r| == |t.nodes|
    ensures forall i :: 0 <= i < |r| ==> r[i] == KeyOf(t.nodes[i])
  {
    seq(|t.nodes|, i requires 0 <= i < |t.nodes| => KeyOf(t.nodes[i]))
  }
}

/** Character classes shared by the password rules and the CSV parser. */
module Chars {
  /** An ASCII decimal digit: `\d` in the password pattern, and a digit `int` parses. */
  predicate IsDigit(c: char) { '0' <= c <= '9' }
}
