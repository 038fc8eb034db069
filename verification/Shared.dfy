/** Types shared by the level structures and the order books. */
module Shared {
  import opened Bits

  type u32 = x: nat | x < TWO_TO_32
  type u64 = x: nat | x < TWO_TO_64

  /** A side indicator. The code stores the message's character unchecked and only ever asks whether
      it is the bid side; `Unknown` stands for any other character. */
  datatype Side = NoSide | Bid | Ask | Unknown

  datatype Level = Level(qty: u64, price: u32)

  datatype Order = Order(qty: u32, price: u32, side: Side)

  datatype BestLvlChange = BestLvlChange(qty: u64, price: u32, side: Side)

  const NO_CHANGE := BestLvlChange(0, 0, NoSide)

  /** The reasons for which the code aborts the process. */
  datatype Failure =
    | LevelNotFound
    | LevelUnderflow
    | OrderNotFound
    | QtyTooLarge
    | CapacityExceeded
    | BucketFull
    | OutOfBounds
    | QueueFull

  datatype Option<T> = None | Some(value: T)

  datatype Outcome<+T> = Done(value: T) | Abort(why: Failure)
}
