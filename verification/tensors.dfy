/** Blobs as the layers see them: `c` channels of `w*h` elements each, stored
    channel after channel. Strides, alignment padding and reference counting
    of ncnn's `Mat` are not modelled. */
module Tensors {

  datatype Tensor = Tensor(w: nat, h: nat, c: nat, data: seq<seq<int>>)

  /** Every channel holds exactly `w*h` elements. */
  predicate Valid(t: Tensor) {
    && |t.data| == t.c
    && forall q :: 0 <= q < |t.data| ==> |t.data[q]| == t.w * t.h
  }

  predicate SameShape(a: Tensor, b: Tensor) {
    a.w == b.w && a.h == b.h && a.c == b.c
  }

  /** What a forward pass leaves in its output blob: nothing (`create` gave an
      empty Mat), a blob of the right shape whose elements were never written,
      or a computed tensor. */
  datatype Blob = Empty | Blank(w: nat, h: nat, c: nat) | Filled(t: Tensor)

  /** `Mat::create` of `total` elements leaves the Mat empty when the allocator
      fails (`allocFails`) or when there is nothing to allocate. */
  predicate CreateFails(allocFails: bool, total: int) {
    allocFails || total == 0
  }
}
