/** The parameters of a stride experiment. */
module StrideModel {
  /** x86 and Cortex-A; 128 on the Apple M1. */
  const CACHE_LINE_SIZE: int := 64

  datatype Experiment = Experiment(
    stride: int,              // ssize_t, in bytes
    step: nat,                // size_t
    firstAccessOffset: nat,   // size_t
    useNanosleep: bool,
    frThresh: nat,            // size_t
    noiseThresh: nat)         // size_t
}
