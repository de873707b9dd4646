/**
 The values a path set stores: one onion-routing circuit ("path") with its
 identifiers, build timestamp, lifecycle status and the introduction it
 advertises, plus the DHT message a publish sends through a path.
 */
module PathTypes {

  /** Identity of a relay (the first hop of a path); its byte layout is not modelled. */
  type RouterID = seq<bv8>

  /** A locally chosen path identifier (receive or transmit direction). */
  type PathID = seq<bv8>

  /** Milliseconds, supplied by the caller; never read from a clock here. */
  type Time = nat

  /** The conventional optional value, standing for a pointer that may be null. */
  datatype Option<T> = None | Some(value: T)

  /** Lifecycle of a path: Building, then Established, then Expired. */
  datatype PathStatus = Building | Established | Expired

  /** How remote peers reach the owning service through one path; carried as opaque data. */
  datatype Introduction = Introduction(data: seq<bv8>)

  /** The collection of a service's introductions, published to the DHT. */
  datatype IntroSet = IntroSet(intros: seq<Introduction>)

  /** One circuit. Its upstream relay and receive id never change once it exists. */
  datatype Path = Path(
    upstream: RouterID,
    rxid: PathID,
    txid: PathID,
    status: PathStatus,
    buildStarted: Time,
    intro: Introduction
  )

  /** The key a path set files a path under. */
  type Key = (RouterID, PathID)

  function KeyOf(p: Path): Key
  {
    (p.upstream, p.rxid)
  }

  /** A path may carry traffic only once its build has completed. */
  predicate IsReady(p: Path)
  {
    p.status == Established
  }

  /** A DHT message; the only kind this core sends asks the DHT to store an introduction set. */
  datatype DhtMessage = PublishIntroMessage(introset: IntroSet, txid: nat)

  /** A routing-layer message carrying DHT messages toward the first hop of a path. */
  datatype RoutingMessage = DhtRoutingMessage(messages: seq<DhtMessage>)
}
