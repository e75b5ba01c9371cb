/**
 * A tag sighting as the reader's tag-report listener builds it, and the
 * listener's EPC-length filter.
 */
module TagEvents {

  /**
   * One detected tag: its EPC, the host name of the reader that saw it, and
   * the "yyyy-MM-dd" date and "HH:mm:ss" time strings read from the clock
   * (opaque here).
   */
  datatype Detection = Detection(epc: string, readerName: string, date: string, time: string)

  /** Longest EPC the "Filter EPCs with more than 9 characters" checkbox lets through. */
  const MaxFilteredEpcLength: nat := 9

  /** The listener's check: forward the tag when filtering is off or the EPC is short enough. */
  predicate Admits(filterOn: bool, epc: string): (r: bool)
    ensures !filterOn ==> r
    ensures filterOn ==> (r <==> |epc| <= MaxFilteredEpcLength)
  {
    !filterOn || |epc| <= MaxFilteredEpcLength
  }
}
