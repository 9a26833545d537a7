/** Page numbers and row pointers. */
module RowIds {
  type PageId = int

  datatype RowId = RowId(page: PageId, slot: nat)
}
