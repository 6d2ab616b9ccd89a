/** Partition modes: kernel/include/core/partition.h. */
module Partitions {
  datatype Mode = InitCold | InitWarm | Normal | Idle | Restart | Stopped
}
