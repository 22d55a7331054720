/**
 * The three kinds of fund transaction the table parser produces, with the
 * field names and field types of backend/app/models/transaction.py. Amounts
 * are exact decimals, written here as `real`. `Transaction` is the tagged
 * union of the three, used where one result may carry any kind.
 */
module Transactions {
  import opened Wrappers

  /** A calendar date, as produced by the date parser. */
  datatype Date = Date(year: int, month: int, day: int)

  datatype CapitalCall = CapitalCall(
    fundId: int,
    callDate: Date,
    amount: real,
    callType: string,
    description: Option<string>)

  datatype Distribution = Distribution(
    fundId: int,
    distributionDate: Date,
    amount: real,
    distributionType: string,
    isRecallable: bool,
    description: Option<string>)

  datatype Adjustment = Adjustment(
    fundId: int,
    adjustmentDate: Date,
    amount: real,
    adjustmentType: string,
    category: Option<string>,
    isContributionAdjustment: bool,
    description: Option<string>)

  datatype Transaction =
    | CallRecord(call: CapitalCall)
    | DistributionRecord(distribution: Distribution)
    | AdjustmentRecord(adjustment: Adjustment)
}
