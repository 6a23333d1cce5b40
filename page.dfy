/** The Page: a fixed 4096-byte buffer with a write cursor. */
module Pages {
  import opened Bytes

  const PAGE_SIZE: nat := 4096

  class Page {
    /** The fixed-capacity byte area; the array itself is never replaced. */
    const data: array<byte>
    /** How many leading bytes of data are in use. */
    var usedBytes: nat

    ghost predicate Valid()
      reads this
    {
      data.Length == PAGE_SIZE && usedBytes <= PAGE_SIZE
    }

    /** A fresh page is empty. The C++ byte area starts out indeterminate;
        here it starts out zero, and no reader looks past usedBytes. */
    constructor ()
      ensures Valid() && fresh(data) && usedBytes == 0
    {
      data := new byte[PAGE_SIZE](_ => 0);
      usedBytes := 0;
    }

    /** Whether n more bytes fit before the capacity is reached: on a valid
        page, exactly when n bytes copied at the write position stay inside
        the data area. */
    predicate HasSpace(n: nat)
      reads this
      ensures Valid() ==> (HasSpace(n) <==> WritePtr() + n <= data.Length)
    {
      usedBytes + n <= PAGE_SIZE
    }

    /** Index of the first free byte: where the next append goes. What
        lies from there to the end of the data area is the free capacity. */
    function WritePtr(): (i: nat)
      reads this
      requires Valid()
      ensures i <= data.Length && data.Length - i == PAGE_SIZE - usedBytes
    {
      usedBytes
    }

    /** Index of byte offset within the data area. The usedBytes - offset
        bytes that read hands to deserializeRow from there end exactly at
        the end of the used bytes, inside the data area. */
    function ReadPtr(offset: nat): (i: nat)
      reads this
      requires Valid() && offset <= usedBytes
      ensures i + (usedBytes - offset) == usedBytes && usedBytes <= data.Length
    {
      offset
    }

    /** Forget the contents without touching the bytes. */
    method Clear()
      modifies this
      ensures usedBytes == 0
      ensures data[..] == old(data[..])
    {
      usedBytes := 0;
    }
  }
}
