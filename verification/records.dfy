/**
 The records shared by the three stages of the pipeline: a sale as read from
 the sales file, and the two product keys the stages group and join on.
 */
module Records {
  import opened Optional

  /** A product as the ABC and the EOQ/ROP stages identify it. */
  datatype ProductKey = ProductKey(brand: int, description: string, size: string)

  /** The coarser (brand, size) key the purchase price for the cost of goods sold is averaged on. */
  type BrandSize = (int, string)

  /**
   One line of the sales file. The sale date is a day number, or None where
   the cell is empty (`to_datetime` gives NaT there; text that is not a date
   makes it raise, which ends the pipeline). The other columns, the
   inventory id and store among them, are taken as present.
   */
  datatype SaleRow = SaleRow(
    inventoryId: string,
    store: int,
    brand: int,
    description: string,
    size: string,
    salesDate: Option<int>,
    salesQuantity: int,
    salesDollars: real)
}
