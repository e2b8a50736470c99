/** Failure-compatible values shared by every part of the coverage projection.
    Each `Error` stands for one way the program panics; a panic aborts the
    whole run, so the model returns it instead and lets the caller stop. */
module Outcome {

  datatype Option<+T> = None | Some(value: T)

  datatype Error =
    /** `split('\t').nth(k).unwrap()` or `fields[k]` on a line with at most k fields */
    | MissingField(index: nat)
    /** `parse::<usize>().unwrap()` on text that is not a `usize` */
    | BadNumber(text: string)
    /** `target_end - target_start` underflows */
    | IntervalUnderflow
    /** `assert!(len >= target_start)` on the first node of a walk */
    | StartBeyondFirstNode
    /** `assert!(target_len >= seen)` on the last node of a walk */
    | SeenBeyondTarget
    /** `segment_lengths[node_id - min_id]` underflows or indexes out of bounds */
    | NodeOutOfRange(id: nat)
    /** `max_id - min_id` underflows because the graph has no segment line */
    | NoSegments
    /** `max_id - min_id + 1` overflows `usize` */
    | RangeOverflow

  datatype Result<+T> = Ok(value: T) | Err(error: Error)
}
