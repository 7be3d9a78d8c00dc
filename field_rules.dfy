/** The fixed column schema of the cleaning pass: the maximum length of each
    known column and the columns whose values are clamped to two decimal places. */
module FieldRules {

  import opened Wrappers

  /** A maximum column length; the table holds no zero or negative limit. */
  type Limit = n: nat | 0 < n witness 1

  /** `fieldRules`: column name to maximum length, one literal in the
      program. Here it is written as the union of three smaller maps, which
      keeps each lookup cheap for the verifier; together they hold the
      program's entries in its order. */
  const FieldRuleTable: map<string, Limit> :=
    RegistrationRules + AddressRules + OwnerAndPropertyRules

  const RegistrationRules: map<string, Limit> :=
    map[
      "bic" := 20,
      "inscricao" := 50,
      "engloba_bic" := 20,
      "distrito" := 5,
      "setor" := 5,
      "zona" := 5,
      "quadra" := 6,
      "lote" := 10,
      "unidade" := 15,
      "matricula_numero" := 20,
      "matricula_data" := 10,
      "matricula_quadra" := 6,
      "matricula_lote" := 10,
      "situacao_cadastro" := 60
    ]

  const AddressRules: map<string, Limit> :=
    map[
      "codigo_logradouro" := 10,
      "tipo_logradouro" := 30,
      "nome_logradouro" := 200,
      "numero_predial" := 10,
      "complemento" := 100,
      "codigo_bairro" := 10,
      "nome_bairro" := 80,
      "loteamento" := 120,
      "cep" := 10,
      "rua_correspondencia" := 200,
      "numero_correspondencia" := 10,
      "complemento_correspondencia" := 100,
      "bairro_correspondencia" := 80,
      "cidade_correspondencia" := 100
    ]

  const OwnerAndPropertyRules: map<string, Limit> :=
    map[
      "codigo_proprietario" := 20,
      "nome_proprietario" := 180,
      "codigo_responsavel" := 20,
      "nome_responsavel" := 180,
      "documento" := 50,
      "testada_principal" := 10,
      "area_terreno" := 10,
      "calcada" := 5,
      "pavimentos" := 10,
      "muro" := 5,
      "localizacao" := 60,
      "formato" := 60,
      "topologia" := 60,
      "pedologia" := 60,
      "lei_uso_solo" := 30,
      "uso" := 60,
      "patrimonio" := 60,
      "ocupacao" := 60,
      "valor_m2" := 20,
      "vvt" := 20,
      "vvi" := 20,
      "aliquota" := 10,
      "iptu" := 10,
      "area_edificada" := 10,
      "area_irregular" := 10,
      "posicao" := 60,
      "padrao_construtivo" := 60,
      "idade_aparente" := 60,
      "estado_conservacao" := 60,
      "vve" := 20,
      "alvara" := 20,
      "data_alvara" := 10,
      "habite_se" := 20,
      "data_habite_se" := 10
    ]

  /** `decimalFields`: the columns clamped to two decimal places. */
  const DecimalFields: seq<string> :=
    [
      "testada_principal",
      "area_terreno",
      "valor_m2",
      "vvi",
      "vvt",
      "iptu",
      "area_edificada",
      "vve"
    ]

  /** `fieldRules[name]` read as a maximum length: the column's limit, or
      `None` for a column the table does not list (JavaScript's `undefined`).
      */
  function RuleFor(name: string): (rule: Option<Limit>)
    ensures rule.Some? <==> name in FieldRuleTable
  {
    if name in FieldRuleTable then Some(FieldRuleTable[name]) else None
  }

  /** `decimalFields.includes(name)`; every decimal column also has a
      length rule. */
  predicate IsDecimalField(name: string): (decimal: bool)
    ensures decimal ==> RuleFor(name).Some?
  {
    name in DecimalFields
  }
}
