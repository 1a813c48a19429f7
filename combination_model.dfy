/** The Combination model of models/combination.model.js: a wrapper around its items. */
module CombinationModel {
  datatype Combination = Combination(items: seq<string>)
}
