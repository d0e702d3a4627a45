/** The potion recipe as the configuration lists it: a sequence of kind names,
    each recognised name adding one unit of its kind to the requirement. */
module Recipe {
  import opened Items

  /** The unit one configured token contributes: its kind when the name is
      recognised, nothing otherwise. `parse` stands for the enum lookup
      `Material.valueOf(token.toUpperCase())`, with `None` for the names it
      rejects. */
  function TokenUnit(parse: string -> Option<Material>, token: string): multiset<Material>
  {
    match parse(token)
    case Some(m) => multiset{m}
    case None => multiset{}
  }

  /** The requirement multiset built from a token list. */
  function RecipeOf(parse: string -> Option<Material>, tokens: seq<string>): (required: multiset<Material>)
    ensures |required| <= |tokens|
  {
    if tokens == [] then multiset{} else TokenUnit(parse, tokens[0]) + RecipeOf(parse, tokens[1..])
  }

  /** Building from two lists one after the other gives the sum of the two
      requirements, so the order of the tokens does not matter. */
  lemma {:induction false} RecipeConcat(parse: string -> Option<Material>, a: seq<string>, b: seq<string>)
    ensures RecipeOf(parse, a + b) == RecipeOf(parse, a) + RecipeOf(parse, b)
  {
    if a == [] {
      assert a + b == b;
    } else {
      assert (a + b)[1..] == a[1..] + b;
      RecipeConcat(parse, a[1..], b);
    }
  }

  /** Appending one token extends the requirement by that token's unit: the
      step the loading loop takes. */
  lemma RecipeSnoc(parse: string -> Option<Material>, tokens: seq<string>, t: string)
    ensures RecipeOf(parse, tokens + [t]) == RecipeOf(parse, tokens) + TokenUnit(parse, t)
  {
    RecipeConcat(parse, tokens, [t]);
    assert RecipeOf(parse, [t]) == TokenUnit(parse, t) by {
      assert [t][1..] == [];
    }
  }

  /** Loading one more token of the list extends the requirement of the
      prefix loaded so far by that token's unit. */
  lemma RecipePrefixStep(parse: string -> Option<Material>, tokens: seq<string>, i: int)
    requires 0 <= i < |tokens|
    ensures RecipeOf(parse, tokens[..i + 1]) == RecipeOf(parse, tokens[..i]) + TokenUnit(parse, tokens[i])
  {
    assert tokens[..i + 1] == tokens[..i] + [tokens[i]];
    RecipeSnoc(parse, tokens[..i], tokens[i]);
  }

  /** A recognised token adds exactly one unit of its kind wherever it
      stands; an unrecognised one changes nothing. */
  lemma TokenEffect(parse: string -> Option<Material>, a: seq<string>, t: string, b: seq<string>)
    ensures parse(t).Some? ==>
      RecipeOf(parse, a + [t] + b) == RecipeOf(parse, a + b) + multiset{parse(t).value}
    ensures parse(t).None? ==> RecipeOf(parse, a + [t] + b) == RecipeOf(parse, a + b)
  {
    var ra, rb, unit := RecipeOf(parse, a), RecipeOf(parse, b), TokenUnit(parse, t);
    RecipeConcat(parse, a + [t], b);
    RecipeSnoc(parse, a, t);
    RecipeConcat(parse, a, b);
    assert RecipeOf(parse, a + [t] + b) == ra + unit + rb;
    assert RecipeOf(parse, a + b) == ra + rb;
  }

  /** A kind is required exactly when some token names it, so every stored
      count is at least one and every recognised token is represented. */
  lemma {:induction false} RecipeKeys(parse: string -> Option<Material>, tokens: seq<string>, m: Material)
    ensures m in RecipeOf(parse, tokens) <==> exists i :: 0 <= i < |tokens| && parse(tokens[i]) == Some(m)
  {
    if tokens != [] {
      RecipeKeys(parse, tokens[1..], m);
      if m in RecipeOf(parse, tokens[1..]) {
        var i :| 0 <= i < |tokens[1..]| && parse(tokens[1..][i]) == Some(m);
        assert parse(tokens[i + 1]) == Some(m);
      }
      if exists i :: 0 <= i < |tokens| && parse(tokens[i]) == Some(m) {
        var i :| 0 <= i < |tokens| && parse(tokens[i]) == Some(m);
        if i > 0 {
          assert parse(tokens[1..][i - 1]) == Some(m);
        }
      }
    }
  }

  /** The recipe total equals the number of tokens exactly when every token
      is recognised. */
  lemma {:induction false} RecipeTotal(parse: string -> Option<Material>, tokens: seq<string>)
    ensures |RecipeOf(parse, tokens)| == |tokens| <==> forall i :: 0 <= i < |tokens| ==> parse(tokens[i]).Some?
  {
    if tokens != [] {
      RecipeTotal(parse, tokens[1..]);
      if forall i :: 0 <= i < |tokens[1..]| ==> parse(tokens[1..][i]).Some? {
        if parse(tokens[0]).Some? {
          forall i | 0 <= i < |tokens| ensures parse(tokens[i]).Some? {
            if i > 0 { assert tokens[i] == tokens[1..][i - 1]; }
          }
        }
      } else {
        var j :| 0 <= j < |tokens[1..]| && parse(tokens[1..][j]).None?;
        assert parse(tokens[j + 1]).None?;
      }
    }
  }
}
